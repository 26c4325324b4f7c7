/** The text console as a value: 80x25 cells of a character and an attribute byte, and the cursor. */
module Screen {
  import opened Config
  import opened Bytes

  const COLS := 80
  const ROWS := 25
  const SCREEN_SIZE := 4000
  const BLANK: byte := 32
  const ATTRIB: byte := 7
  const CARRIAGE_RETURN: byte := 13
  const TAB: byte := 9

  datatype Console = Console(mem: seq<byte>, x: int, y: int)

  /**
   The cursor is on the screen, or at the start of the row below it: scrolling is put off until the
   next character arrives.
   */
  ghost predicate Bounded(s: Console) {
    |s.mem| == SCREEN_SIZE && 0 <= s.x < COLS && 0 <= s.y <= ROWS && (s.y == ROWS ==> s.x == 0)
  }

  function BlankByte(k: nat): byte { if k % 2 == 0 then BLANK else ATTRIB }

  ghost function Cleared(): Console {
    Console(seq(SCREEN_SIZE, k requires 0 <= k => BlankByte(k)), 0, 0)
  }

  function ScrolledByte(mem: seq<byte>, k: nat): byte
    requires |mem| == SCREEN_SIZE && k < SCREEN_SIZE
  {
    if k < SCREEN_SIZE - 2 * COLS then mem[k + 2 * COLS] else BlankByte(k)
  }

  /** One row up; the bottom row is blank. */
  ghost function Scrolled(mem: seq<byte>): (r: seq<byte>)
    requires |mem| == SCREEN_SIZE
    ensures |r| == SCREEN_SIZE
  {
    seq(SCREEN_SIZE, k requires 0 <= k < SCREEN_SIZE => ScrolledByte(mem, k))
  }

  function CellAt(x: int, y: int): int { 2 * (COLS * y + x) }

  /** A character written at the cell, with the standard attribute. */
  function Written(mem: seq<byte>, x: int, y: int, c: byte): (r: seq<byte>)
    requires |mem| == SCREEN_SIZE && 0 <= x < COLS && 0 <= y < ROWS
    ensures |r| == SCREEN_SIZE
  {
    mem[CellAt(x, y) := c][CellAt(x, y) + 1 := ATTRIB]
  }

  predicate IsNewline(c: byte) { c == NEWLINE || c == CARRIAGE_RETURN }

  /** Where the cursor goes before anything is drawn. */
  function Advance(x: int, y: int, c: byte): (int, int) {
    var (x1, y1) := if IsNewline(c) then (0, y + 1) else if c == TAB then (x + 4, y) else (x, y);
    if x1 >= COLS then (0, y1 + 1) else (x1, y1)
  }

  predicate Scrolls(s: Console, c: byte) {
    c != NUL && Advance(s.x, s.y, c).1 >= ROWS
  }

  ghost function Settled(s: Console, c: byte): (r: Console)
    requires Bounded(s) && c != NUL
    ensures |r.mem| == SCREEN_SIZE
  {
    var (x, y) := Advance(s.x, s.y, c);
    if y >= ROWS then Console(Scrolled(s.mem), 0, y - 1) else Console(s.mem, x, y)
  }

  ghost function Put(s: Console, c: byte): (r: Console)
    requires Bounded(s)
    ensures Bounded(r)
  {
    if c == NUL then s else
      var t := Settled(s, c);
      if IsNewline(c) || c == TAB then t else
        var mem := Written(t.mem, t.x, t.y, c);
        if t.x + 1 == COLS then Console(mem, 0, t.y + 1) else Console(mem, t.x + 1, t.y)
  }

  /** From the end of a row back to behind its last character, but not to column 0. */
  function LastColumn(mem: seq<byte>, x: int, y: int): (r: int)
    requires |mem| == SCREEN_SIZE && 0 <= x < COLS && 0 <= y < ROWS
    ensures 0 <= r <= x && (x >= 1 ==> r >= 1)
    decreases x
  {
    if x > 1 && mem[CellAt(x - 1, y)] == BLANK then LastColumn(mem, x - 1, y) else x
  }

  ghost function Backspaced(s: Console): (r: Console)
    requires Bounded(s)
    ensures Bounded(r)
  {
    var (x, y) :=
      if s.x > 0 then (s.x - 1, s.y)
      else if s.y == 0 then (0, 0)
      else (LastColumn(s.mem, COLS - 1, s.y - 1), s.y - 1);
    Console(Written(s.mem, x, y, BLANK), x, y)
  }

  /** A character that neither wraps nor scrolls is undone by a backspace, up to a blank in its cell. */
  lemma BackspaceUndoesPut(s: Console, c: byte)
    requires Bounded(s) && s.y < ROWS && s.x < COLS - 1
    requires c != NUL && c != TAB && !IsNewline(c)
    ensures Backspaced(Put(s, c)) == Console(Written(s.mem, s.x, s.y, BLANK), s.x, s.y)
  {
    var k := CellAt(s.x, s.y);
    assert s.mem[k := c][k + 1 := ATTRIB][k := BLANK][k + 1 := ATTRIB] == s.mem[k := BLANK][k + 1 := ATTRIB];
  }

  lemma {:induction false} LastColumnIs(mem: seq<byte>, x: int, y: int, r: int)
    requires |mem| == SCREEN_SIZE && 1 <= r <= x < COLS && 0 <= y < ROWS
    requires r == 1 || mem[CellAt(r - 1, y)] != BLANK
    requires forall k :: r <= k < x ==> mem[CellAt(k, y)] == BLANK
    ensures LastColumn(mem, x, y) == r
    decreases x
  {
    if x > r {
      assert mem[CellAt(x - 1, y)] == BLANK;
      LastColumnIs(mem, x - 1, y, r);
    }
  }

  /** A newline typed behind the last character of a row is undone by a backspace. */
  lemma BackspaceUndoesNewline(s: Console, c: byte)
    requires Bounded(s) && s.y < ROWS - 1 && s.x >= 1 && IsNewline(c)
    requires s.x == 1 || s.mem[CellAt(s.x - 1, s.y)] != BLANK
    requires forall k :: s.x <= k < COLS - 1 ==> s.mem[CellAt(k, s.y)] == BLANK
    ensures Backspaced(Put(s, c)) == Console(Written(s.mem, s.x, s.y, BLANK), s.x, s.y)
  {
    LastColumnIs(s.mem, COLS - 1, s.y, s.x);
  }

  lemma {:induction false} LastColumnShape(mem: seq<byte>, x: int, y: int)
    requires |mem| == SCREEN_SIZE && 1 <= x < COLS && 0 <= y < ROWS
    ensures var r := LastColumn(mem, x, y);
            && 1 <= r <= x && (r == 1 || mem[CellAt(r - 1, y)] != BLANK)
            && forall k :: r <= k < x ==> mem[CellAt(k, y)] == BLANK
    decreases x
  {
    if x > 1 && mem[CellAt(x - 1, y)] == BLANK {
      LastColumnShape(mem, x - 1, y);
    }
  }

  /**
   From the start of a row, the put-off one included, a backspace goes behind the last character of the
   row above, but not to its column 0 and not past column 79, blanks that cell and changes nothing else.
   */
  lemma BackspaceIntoPreviousRow(s: Console)
    requires Bounded(s) && s.x == 0 && s.y > 0
    ensures var r := Backspaced(s);
            && r.y == s.y - 1 && 1 <= r.x <= 79
            && (r.x == 1 || s.mem[CellAt(r.x - 1, r.y)] != BLANK)
            && (forall k :: r.x <= k < 79 ==> s.mem[CellAt(k, r.y)] == BLANK)
            && r.mem == Written(s.mem, r.x, r.y, BLANK)
  {
    var y := s.y - 1;
    LastColumnShape(s.mem, COLS - 1, y);
    var x := LastColumn(s.mem, COLS - 1, y);
    hide LastColumn;
    assert Backspaced(s) == Console(Written(s.mem, x, y, BLANK), x, y);
    hide Written;
    hide Backspaced;
  }

  /** In the first cell a backspace stays there and blanks it. */
  lemma BackspaceAtOrigin(s: Console)
    requires Bounded(s) && s.x == 0 && s.y == 0
    ensures Backspaced(s) == Console(Written(s.mem, 0, 0, BLANK), 0, 0)
  {
  }

  /** A character in column 79, that of the last row included, is undone exactly when column 78 is not blank. */
  lemma BackspaceUndoesWrap(s: Console, c: byte)
    requires Bounded(s) && s.x == 79 && s.y < ROWS && c != NUL && c != TAB && !IsNewline(c)
    ensures Backspaced(Put(s, c)) == Console(Written(s.mem, 79, s.y, BLANK), 79, s.y) <==>
            s.mem[CellAt(78, s.y)] != BLANK
  {
    var t, k := Put(s, c), CellAt(79, s.y);
    PutDraws(s, c);
    hide Put;
    hide Backspaced;
    BackspaceIntoPreviousRow(t);
    assert t.mem[CellAt(78, s.y)] == s.mem[CellAt(78, s.y)];
    assert s.mem[k := c][k + 1 := ATTRIB][k := BLANK][k + 1 := ATTRIB] == s.mem[k := BLANK][k + 1 := ATTRIB];
  }

  /** A character (not NUL, tab, newline or carriage return) is drawn in the cursor's cell, light grey on black. */
  lemma PutDraws(s: Console, c: byte)
    requires Bounded(s) && s.y < 25 && c != 0 && c != 9 && c != 10 && c != 13
    ensures var r, k := Put(s, c), 2 * (80 * s.y + s.x);
            && r.mem == s.mem[k := c][k + 1 := 7]
            && (r.x, r.y) == if s.x < 79 then (s.x + 1, s.y) else (0, s.y + 1)
  {
  }

  /** A cleared screen: blanks, light grey on black, and the cursor in the first cell. */
  lemma ClearedIs(k: nat)
    requires k < 2000
    ensures Cleared().mem[2 * k] == 32 && Cleared().mem[2 * k + 1] == 7 && Cleared().x == 0 && Cleared().y == 0
  {
  }

  /** A carriage return (13) does what a newline (10) does. */
  lemma CarriageReturnIsNewline(s: Console)
    requires Bounded(s)
    ensures Put(s, 13) == Put(s, 10)
    ensures s.y < ROWS - 1 ==> Put(s, 10) == Console(s.mem, 0, s.y + 1)
    ensures s.y == ROWS - 1 ==> Put(s, 10) == Console(Scrolled(s.mem), 0, ROWS - 1)
  {
  }

  // ---------------------------------------------------------------- three consoles, one active

  datatype Event = PutEvent(c: byte) | BackspaceEvent | ClearEvent | SwitchEvent(tty: nat)

  datatype Ttys = Ttys(active: nat, consoles: seq<Console>)

  ghost predicate TtysBounded(t: Ttys) {
    t.active < TTYS && |t.consoles| == TTYS && forall i :: 0 <= i < TTYS ==> Bounded(t.consoles[i])
  }

  ghost predicate Legal(e: Event) {
    e.SwitchEvent? ==> e.tty < TTYS
  }

  ghost function Apply(s: Console, e: Event): (r: Console)
    requires Bounded(s)
    ensures Bounded(r)
  {
    match e
    case PutEvent(c) => Put(s, c)
    case BackspaceEvent => Backspaced(s)
    case ClearEvent => Cleared()
    case SwitchEvent(_) => s
  }

  /** Output goes to the active console and to no other; a switch changes only which one is active. */
  ghost function TtyStep(t: Ttys, e: Event): (r: Ttys)
    requires TtysBounded(t) && Legal(e)
    ensures TtysBounded(r)
  {
    if e.SwitchEvent? then Ttys(e.tty, t.consoles)
    else Ttys(t.active, t.consoles[t.active := Apply(t.consoles[t.active], e)])
  }

  ghost function TtyRun(t: Ttys, es: seq<Event>): (r: Ttys)
    requires TtysBounded(t) && forall e :: e in es ==> Legal(e)
    ensures TtysBounded(r)
    decreases |es|
  {
    if es == [] then t else TtyRun(TtyStep(t, es[0]), es[1..])
  }

  ghost function ConsoleRun(s: Console, es: seq<Event>): (r: Console)
    requires Bounded(s)
    ensures Bounded(r)
    decreases |es|
  {
    if es == [] then s else ConsoleRun(Apply(s, es[0]), es[1..])
  }

  /** The events issued while `tty` was active, given that `active` is at the start. */
  ghost function IssuedOn(tty: nat, active: nat, es: seq<Event>): seq<Event>
    decreases |es|
  {
    if es == [] then []
    else if es[0].SwitchEvent? then IssuedOn(tty, es[0].tty, es[1..])
    else (if active == tty then [es[0]] else []) + IssuedOn(tty, active, es[1..])
  }

  /** Each console ends as if it alone had received the events issued while it was active. */
  lemma {:induction false} ConsolesAreIndependent(t: Ttys, es: seq<Event>, tty: nat)
    requires TtysBounded(t) && (forall e :: e in es ==> Legal(e)) && tty < TTYS
    ensures TtyRun(t, es).consoles[tty] == ConsoleRun(t.consoles[tty], IssuedOn(tty, t.active, es))
    decreases |es|
  {
    if es != [] {
      ConsolesAreIndependent(TtyStep(t, es[0]), es[1..], tty);
      var rest := IssuedOn(tty, TtyStep(t, es[0]).active, es[1..]);
      if !es[0].SwitchEvent? && t.active == tty {
        assert IssuedOn(tty, t.active, es)[1..] == rest;
      } else {
        assert IssuedOn(tty, t.active, es) == rest;
      }
    }
  }
}
