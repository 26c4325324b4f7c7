/** What the keyboard echo draws, key by key, and the line it leaves on the screen. */
module TypedLine {
  import opened Config
  import opened Bytes
  import opened Screen
  import opened LineBuffer
  import opened Terminal

  // ---------------------------------------------------------------- the echo in terms of the keys

  /** Index of the first backspace (8) or newline (10), or the length. */
  function FirstStop(bytes: seq<byte>): (s: nat)
    ensures s <= |bytes| && (s < |bytes| ==> bytes[s] == 8 || bytes[s] == 10)
    ensures forall i :: 0 <= i < s ==> bytes[i] != 8 && bytes[i] != 10
  {
    if bytes == [] || bytes[0] == 8 || bytes[0] == 10 then 0 else 1 + FirstStop(bytes[1..])
  }

  /**
   Every key before the first backspace or newline is drawn as itself, and so is a newline; a backspace
   is drawn exactly when a character is pending then; nothing else is drawn.
   */
  lemma {:induction false} EchoIs(f: Flat, t: nat, bytes: seq<byte>)
    requires FlatOk(f) && t < TTYS
    ensures var s, e := FirstStop(bytes), Echo(f, t, bytes);
            && s <= |e| && (forall i :: 0 <= i < s ==> e[i] == PutEvent(bytes[i]))
            && (s == |bytes| ==> |e| == s)
            && (s < |bytes| && bytes[s] == 10 ==> |e| == s + 1 && e[s] == PutEvent(10))
            && (s < |bytes| && bytes[s] == 8 ==>
                  if s > 0 || PendingIn(f, t) != [] then |e| == s + 1 && e[s] == BackspaceEvent else |e| == s)
    decreases |bytes|
  {
    if bytes != [] && Plain(bytes[0]) {
      EchoIs(FlatKey(f, t, bytes[0]), t, bytes[1..]);
    }
  }

  /** A write returns 0 when a backspace comes first, 1 when a newline does, and its whole count otherwise. */
  lemma {:induction false} ReturnedIs(bytes: seq<byte>, count: nat)
    ensures var s := FirstStop(bytes);
            Returned(bytes, count) == if s == |bytes| then count else if bytes[s] == 8 then 0 else 1
  {
    if bytes != [] && Plain(bytes[0]) {
      ReturnedIs(bytes[1..], count);
    }
  }

  // ---------------------------------------------------------------- the line on the screen

  /** Row `y` shows `line` from its first column on, and blanks behind it. */
  ghost predicate RowShows(mem: seq<byte>, y: int, line: seq<byte>) {
    && |mem| == SCREEN_SIZE && 0 <= y < ROWS && |line| < COLS
    && forall k :: 0 <= k < COLS ==> mem[CellAt(k, y)] == if k < |line| then line[k] else BLANK
  }

  /** The cursor stands behind the line. */
  ghost predicate ShowsLine(s: Console, y: int, line: seq<byte>) {
    Bounded(s) && s.y == y && s.x == |line| && RowShows(s.mem, y, line)
  }

  /** A key that draws a character: no NUL, tab, newline, carriage return or backspace. */
  predicate Drawable(c: byte) {
    c != 0 && c != 8 && c != 9 && c != 10 && c != 13
  }

  lemma CellWritten(mem: seq<byte>, x: int, y: int, c: byte, k: int)
    requires |mem| == SCREEN_SIZE && 0 <= x < COLS && 0 <= y < ROWS && 0 <= k < COLS
    ensures Written(mem, x, y, c)[CellAt(k, y)] == if k == x then c else mem[CellAt(k, y)]
  {
  }

  lemma KeyShows(s: Console, y: int, line: seq<byte>, c: byte)
    requires ShowsLine(s, y, line) && Drawable(c) && |line| + 1 < COLS
    ensures ShowsLine(Put(s, c), y, line + [c])
  {
    var r := Put(s, c);
    assert r == Console(Written(s.mem, |line|, y, c), |line| + 1, y);
    hide Put;
    forall k | 0 <= k < COLS
      ensures r.mem[CellAt(k, y)] == if k < |line| + 1 then (line + [c])[k] else BLANK
    {
      CellWritten(s.mem, |line|, y, c, k);
    }
  }

  lemma BackspaceShows(s: Console, y: int, line: seq<byte>)
    requires ShowsLine(s, y, line) && line != []
    ensures ShowsLine(Backspaced(s), y, line[..|line| - 1])
  {
    var r := Backspaced(s);
    assert r == Console(Written(s.mem, |line| - 1, y, BLANK), |line| - 1, y);
    hide Backspaced;
    forall k | 0 <= k < COLS
      ensures r.mem[CellAt(k, y)] == if k < |line| - 1 then line[k] else BLANK
    {
      CellWritten(s.mem, |line| - 1, y, BLANK, k);
    }
  }

  /** What a keyboard write without Enter draws keeps the pending line on the screen. */
  lemma {:induction false} EchoShowsLine(f: Flat, t: nat, bytes: seq<byte>, s: Console, y: int)
    requires FlatOk(f) && t < TTYS && ShowsLine(s, y, PendingIn(f, t))
    requires |PendingIn(f, t)| + |bytes| < COLS && forall c :: c in bytes ==> Drawable(c) || c == 8
    ensures ShowsLine(ConsoleRun(s, Echo(f, t, bytes)), y, PendingIn(FlatKeys(f, t, bytes), t))
    decreases |bytes|
  {
    if bytes != [] {
      var c, line := bytes[0], PendingIn(f, t);
      assert c in bytes && forall x :: x in bytes[1..] ==> x in bytes;
      hide ShowsLine;
      if c == 8 {
        BackspaceKey(f, t, bytes, s, y);
      } else {
        var g, later := FlatKey(f, t, c), Echo(FlatKey(f, t, c), t, bytes[1..]);
        OwnStore(f, t, c);
        ShowsBounded(s, y, line);
        KeyShows(s, y, line, c);
        EchoShowsLine(g, t, bytes[1..], Put(s, c), y);
        assert Echo(f, t, bytes) == [PutEvent(c)] + later;
        RunFirst(s, PutEvent(c), later);
      }
    }
  }

  lemma ShowsBounded(s: Console, y: int, line: seq<byte>)
    requires ShowsLine(s, y, line)
    ensures Bounded(s)
  {
  }

  lemma RunFirst(s: Console, e: Event, later: seq<Event>)
    requires Bounded(s)
    ensures ConsoleRun(s, [e] + later) == ConsoleRun(Apply(s, e), later)
  {
    assert ([e] + later)[1..] == later;
  }

  lemma BackspaceKey(f: Flat, t: nat, bytes: seq<byte>, s: Console, y: int)
    requires FlatOk(f) && t < TTYS && ShowsLine(s, y, PendingIn(f, t)) && bytes != [] && bytes[0] == 8
    ensures Bounded(s)
    ensures ShowsLine(ConsoleRun(s, Echo(f, t, bytes)), y, PendingIn(FlatKeys(f, t, bytes), t))
  {
    OwnBackspace(f, t);
    var line := PendingIn(f, t);
    if line == [] {
      assert Echo(f, t, bytes) == [];
    } else {
      BackspaceShows(s, y, line);
      assert Echo(f, t, bytes) == [BackspaceEvent] + [];
      RunFirst(s, BackspaceEvent, []);
      assert ConsoleRun(Backspaced(s), []) == Backspaced(s);
      hide ShowsLine;
    }
  }

  /** Enter leaves the line where it is and goes to the start of the next row. */
  lemma EnterKeepsLine(f: Flat, t: nat, s: Console, y: int)
    requires FlatOk(f) && t < TTYS && ShowsLine(s, y, PendingIn(f, t)) && y < ROWS - 1
    ensures Bounded(s)
    ensures var r := ConsoleRun(s, Echo(f, t, [10]));
            r.mem == s.mem && RowShows(r.mem, y, PendingIn(f, t)) && r.x == 0 && r.y == y + 1
    ensures PendingIn(FlatKeys(f, t, [10]), t) == PendingIn(f, t) && FlatKeys(f, t, [10]).enter
  {
    assert Echo(f, t, [10]) == [PutEvent(10)] + [];
    RunFirst(s, PutEvent(10), []);
    assert ConsoleRun(Put(s, 10), []) == Put(s, 10);
  }

  // ---------------------------------------------------------------- a line typed in many writes

  ghost function WriteAll(f: Flat, t: nat, writes: seq<seq<byte>>): (r: Flat)
    requires FlatOk(f) && t < TTYS
    ensures FlatOk(r)
    decreases |writes|
  {
    if writes == [] then f else WriteAll(FlatKeys(f, t, writes[0]), t, writes[1..])
  }

  ghost function DrawAll(f: Flat, t: nat, writes: seq<seq<byte>>, s: Console): (r: Console)
    requires FlatOk(f) && t < TTYS && Bounded(s)
    ensures Bounded(r)
    decreases |writes|
  {
    if writes == [] then s
    else DrawAll(FlatKeys(f, t, writes[0]), t, writes[1..], ConsoleRun(s, Echo(f, t, writes[0])))
  }

  ghost function Typed(writes: seq<seq<byte>>): nat {
    if writes == [] then 0 else |writes[0]| + Typed(writes[1..])
  }

  lemma {:induction false} PendingGrows(f: Flat, t: nat, bytes: seq<byte>)
    requires FlatOk(f) && t < TTYS
    ensures |PendingIn(FlatKeys(f, t, bytes), t)| <= |PendingIn(f, t)| + |bytes|
    decreases |bytes|
  {
    if bytes != [] && Plain(bytes[0]) {
      PendingGrows(FlatKey(f, t, bytes[0]), t, bytes[1..]);
    }
  }

  /**
   After any number of keyboard writes of visible characters and backspaces on one row, the row shows
   exactly the line that a read would deliver, with the cursor behind it.
   */
  lemma {:induction false} TypedLineShows(f: Flat, t: nat, writes: seq<seq<byte>>, s: Console, y: int)
    requires FlatOk(f) && t < TTYS && ShowsLine(s, y, PendingIn(f, t)) && |PendingIn(f, t)| + Typed(writes) < COLS
    requires forall w :: w in writes ==> forall c :: c in w ==> Drawable(c) || c == 8
    ensures Bounded(s) && ShowsLine(DrawAll(f, t, writes, s), y, PendingIn(WriteAll(f, t, writes), t))
    decreases |writes|
  {
    ShowsBounded(s, y, PendingIn(f, t));
    hide ShowsLine;
    if writes != [] {
      assert writes[0] in writes && forall w :: w in writes[1..] ==> w in writes;
      EchoShowsLine(f, t, writes[0], s, y);
      PendingGrows(f, t, writes[0]);
      TypedLineShows(FlatKeys(f, t, writes[0]), t, writes[1..], ConsoleRun(s, Echo(f, t, writes[0])), y);
    }
  }
}
