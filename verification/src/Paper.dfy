/** The screen as a window on an unbounded sheet of paper that never scrolls. */
module Paper {
  import opened Bytes
  import opened Screen

  /** Ink by cell number (80 cells to a row), and the cursor. */
  datatype Sheet = Sheet(ink: map<nat, byte>, row: int, col: int)

  function Mark(ink: map<nat, byte>, cell: int): byte {
    if cell >= 0 && cell in ink then ink[cell] else BLANK
  }

  /** The cursor rules of the sheet: a tab that does not fit its row goes to the next one. */
  ghost function Moved(p: Sheet, c: byte): Sheet {
    if IsNewline(c) then Sheet(p.ink, p.row + 1, 0)
    else if c != TAB then p
    else if p.col + 4 < COLS then Sheet(p.ink, p.row, p.col + 4)
    else Sheet(p.ink, p.row + 1, 0)
  }

  ghost function Drawn(p: Sheet, c: byte): Sheet {
    var ink := if COLS * p.row + p.col >= 0 then p.ink[COLS * p.row + p.col := c] else p.ink;
    if p.col + 1 == COLS then Sheet(ink, p.row + 1, 0) else Sheet(ink, p.row, p.col + 1)
  }

  /** Typing on the sheet, where nothing ever scrolls. */
  ghost function Typed(p: Sheet, c: byte): Sheet {
    if c == NUL then p
    else if IsNewline(c) || c == TAB then Moved(p, c)
    else Drawn(Moved(p, c), c)
  }

  ghost function WindowByte(ink: map<nat, byte>, top: nat, k: nat): byte {
    if k % 2 == 0 then Mark(ink, COLS * top + k / 2) else ATTRIB
  }

  ghost predicate ShowsFrom(mem: seq<byte>, ink: map<nat, byte>, top: nat) {
    |mem| == SCREEN_SIZE && forall k :: 0 <= k < SCREEN_SIZE ==> mem[k] == WindowByte(ink, top, k)
  }

  ghost predicate NothingBehind(p: Sheet) {
    forall cell :: cell in p.ink ==> cell < COLS * p.row + p.col
  }

  /** Screen row r is row `top` + r of the sheet, for every cell, and the cursors agree. */
  ghost predicate Window(s: Console, p: Sheet, top: nat) {
    && Bounded(s) && p.row == top + s.y && p.col == s.x
    && NothingBehind(p) && ShowsFrom(s.mem, p.ink, top)
  }

  /** Scrolling moves the window down by one row, onto paper that is still blank. */
  lemma ScrollMovesWindow(mem: seq<byte>, ink: map<nat, byte>, top: nat)
    requires ShowsFrom(mem, ink, top) && forall cell :: cell in ink ==> cell < COLS * (top + ROWS)
    ensures ShowsFrom(Scrolled(mem), ink, top + 1)
  {
    forall k | 0 <= k < SCREEN_SIZE
      ensures Scrolled(mem)[k] == WindowByte(ink, top + 1, k)
    {
      if k < SCREEN_SIZE - 2 * COLS {
        assert mem[k + 2 * COLS] == WindowByte(ink, top, k + 2 * COLS);
      }
    }
  }

  /** One character appears in the same place on the screen and on the sheet. */
  lemma WriteShows(mem: seq<byte>, ink: map<nat, byte>, top: nat, x: int, y: int, c: byte)
    requires ShowsFrom(mem, ink, top) && 0 <= x < COLS && 0 <= y < ROWS
    ensures ShowsFrom(Written(mem, x, y, c), ink[COLS * (top + y) + x := c], top)
  {
    var ink' := ink[COLS * (top + y) + x := c];
    forall k | 0 <= k < SCREEN_SIZE
      ensures Written(mem, x, y, c)[k] == WindowByte(ink', top, k)
    {
      assert mem[k] == WindowByte(ink, top, k);
      assert k == 2 * (k / 2) + k % 2;
    }
  }

  ghost function TopAfter(s: Console, top: nat, c: byte): nat {
    if Scrolls(s, c) then top + 1 else top
  }

  lemma SettleKeepsWindow(s: Console, p: Sheet, top: nat, c: byte)
    requires Window(s, p, top) && c != NUL && !(c == TAB && s.y == ROWS)
    ensures var t, q := Settled(s, c), Moved(p, c);
            && q.row == TopAfter(s, top, c) + t.y && q.col == t.x
            && 0 <= t.x < COLS && 0 <= t.y && (t.y < ROWS || (IsNewline(c) && t.y == ROWS && t.x == 0))
            && NothingBehind(q) && ShowsFrom(t.mem, q.ink, TopAfter(s, top, c))
  {
    if Scrolls(s, c) {
      assert COLS * p.row + p.col <= COLS * (top + ROWS);
      ScrollMovesWindow(s.mem, p.ink, top);
    }
    assert COLS * p.row + p.col <= COLS * Moved(p, c).row + Moved(p, c).col;
  }

  /** A tab in the put-off state is the one thing that separates screen and sheet. */
  lemma PutKeepsWindow(s: Console, p: Sheet, top: nat, c: byte)
    requires Window(s, p, top)
    ensures Window(Put(s, c), Typed(p, c), TopAfter(s, top, c)) <==> !(c == TAB && s.y == ROWS)
  {
    if c == NUL {
    } else if c == TAB && s.y == ROWS {
      assert Put(s, c).x == 0 && Typed(p, c).col == 4;
    } else {
      SettleKeepsWindow(s, p, top, c);
      if !(IsNewline(c) || c == TAB) {
        var t, q := Settled(s, c), Moved(p, c);
        WriteShows(t.mem, q.ink, TopAfter(s, top, c), t.x, t.y, c);
      }
    }
  }

  // ---------------------------------------------------------------- whole texts

  ghost function Printed(text: seq<byte>): (s: Console)
    ensures Bounded(s)
  {
    if text == [] then Cleared() else Put(Printed(text[..|text| - 1]), text[|text| - 1])
  }

  ghost function OnPaper(text: seq<byte>): Sheet {
    if text == [] then Sheet(map[], 0, 0) else Typed(OnPaper(text[..|text| - 1]), text[|text| - 1])
  }

  /** How many times the screen has scrolled. */
  ghost function ScrollCount(text: seq<byte>): nat {
    if text == [] then 0 else TopAfter(Printed(text[..|text| - 1]), ScrollCount(text[..|text| - 1]), text[|text| - 1])
  }

  /** No tab arrives while a scroll is put off. */
  ghost predicate NoLateTab(text: seq<byte>) {
    text == [] ||
    (NoLateTab(text[..|text| - 1]) && !(text[|text| - 1] == TAB && Printed(text[..|text| - 1]).y == ROWS))
  }

  ghost predicate AlwaysWindow(text: seq<byte>) {
    forall n :: 0 <= n <= |text| ==> WindowAfter(text[..n])
  }

  ghost predicate WindowAfter(text: seq<byte>) {
    Window(Printed(text), OnPaper(text), ScrollCount(text))
  }

  /**
   After `clear`, the screen shows the last rows of the sheet after every prefix of the text, exactly
   when no tab arrives while a scroll is put off; in particular for every text without tabs.
   */
  lemma {:induction false} ScreenIsAWindow(text: seq<byte>)
    ensures AlwaysWindow(text) <==> NoLateTab(text)
  {
    hide Window;
    hide Put;
    hide Typed;
    if text == [] {
      ClearedIsAWindow();
      assert forall n :: 0 <= n <= |text| ==> text[..n] == [];
    } else {
      var n := |text| - 1;
      var init := text[..n];
      ScreenIsAWindow(init);
      LastPrefix(text);
      if WindowAfter(init) {
        PutKeepsWindow(Printed(init), OnPaper(init), ScrollCount(init), text[n]);
      }
    }
  }

  lemma ClearedIsAWindow()
    ensures WindowAfter([])
  {
  }

  lemma LastPrefix(text: seq<byte>)
    requires text != []
    ensures AlwaysWindow(text) <==> AlwaysWindow(text[..|text| - 1]) && WindowAfter(text)
    ensures AlwaysWindow(text[..|text| - 1]) ==> WindowAfter(text[..|text| - 1])
  {
    hide WindowAfter;
    var n := |text| - 1;
    var init := text[..n];
    assert forall k :: 0 <= k <= n ==> init[..k] == text[..k];
    assert text[..|text|] == text && init[..n] == init;
    if AlwaysWindow(text) {
      assert forall k :: 0 <= k <= n ==> WindowAfter(text[..k]);
      assert WindowAfter(text[..|text|]);
    }
    if AlwaysWindow(init) {
      assert forall k :: 0 <= k <= n ==> WindowAfter(init[..k]);
      assert WindowAfter(init[..n]);
    }
  }

  lemma {:induction false} TabFreeIsNoLateTab(text: seq<byte>)
    requires TAB !in text
    ensures NoLateTab(text)
  {
    if text != [] {
      TabFreeIsNoLateTab(text[..|text| - 1]);
    }
  }

  function Puts(text: seq<byte>): seq<Event> {
    seq(|text|, i requires 0 <= i < |text| => PutEvent(text[i]))
  }

  lemma {:induction false} RunInParts(s: Console, a: seq<Event>, b: seq<Event>)
    requires Bounded(s)
    ensures ConsoleRun(s, a + b) == ConsoleRun(ConsoleRun(s, a), b)
    decreases |a|
  {
    if a == [] {
      assert a + b == b;
    } else {
      assert (a + b)[0] == a[0] && (a + b)[1..] == a[1..] + b;
      RunInParts(Apply(s, a[0]), a[1..], b);
    }
  }

  /** The text printed here is the run of its characters on a cleared console. */
  lemma {:induction false} PrintedIsRun(text: seq<byte>)
    ensures Printed(text) == ConsoleRun(Cleared(), Puts(text))
  {
    if text != [] {
      var n := |text| - 1;
      PrintedIsRun(text[..n]);
      assert Puts(text) == Puts(text[..n]) + [PutEvent(text[n])];
      RunInParts(Cleared(), Puts(text[..n]), [PutEvent(text[n])]);
      assert ConsoleRun(Printed(text[..n]), [PutEvent(text[n])]) == Put(Printed(text[..n]), text[n]);
    }
  }

  // ---------------------------------------------------------------- a late tab does happen

  const LETTER: byte := 65

  lemma {:induction false} AfterNewlines(n: nat)
    requires n < ROWS
    ensures var s := Printed(seq(n, _ => NEWLINE)); s.x == 0 && s.y == n
  {
    if n > 0 {
      AfterNewlines(n - 1);
      var text := seq(n, _ => NEWLINE);
      assert text[..|text| - 1] == seq(n - 1, _ => NEWLINE);
    }
  }

  lemma OneMore(text: seq<byte>, c: byte)
    ensures Printed(text + [c]) == Put(Printed(text), c)
  {
    assert (text + [c])[..|text|] == text;
  }

  ghost function Letters(m: nat): seq<byte> {
    seq(m, _ => LETTER)
  }

  lemma OneMoreLetter(text: seq<byte>, m: nat)
    requires m > 0
    ensures text + Letters(m) == (text + Letters(m - 1)) + [LETTER]
  {
  }

  /** `m` letters on the last row; the 80th puts the scroll off. */
  lemma {:induction false} AfterLetters(text: seq<byte>, m: nat)
    requires Printed(text).x == 0 && Printed(text).y == ROWS - 1 && m <= COLS
    ensures var s := Printed(text + Letters(m));
            if m < COLS then s.x == m && s.y == ROWS - 1 else s.x == 0 && s.y == ROWS
  {
    hide Printed;
    hide Put;
    if m == 0 {
      assert text + Letters(m) == text;
    } else {
      hide Letters;
      AfterLetters(text, m - 1);
      OneMoreLetter(text, m);
      OneMore(text + Letters(m - 1), LETTER);
      PutDraws(Printed(text + Letters(m - 1)), LETTER);
    }
  }

  /** 24 newlines, a full last row and a tab: screen and sheet part. */
  lemma LateTabHappens()
    ensures var text := seq(24, _ => NEWLINE) + seq(80, _ => LETTER) + [TAB];
            !NoLateTab(text) && !AlwaysWindow(text)
  {
    var typed := seq(24, _ => NEWLINE) + seq(80, _ => LETTER);
    var text := typed + [TAB];
    AfterNewlines(24);
    AfterLetters(seq(24, _ => NEWLINE), 80);
    assert Letters(80) == seq(80, _ => LETTER);
    assert text[..|text| - 1] == typed;
    ScreenIsAWindow(text);
  }
}
