/**
 The sliding buffer of grep as a machine on its 1025 bytes, for files with any bytes whatever: one pass
 over a filled buffer, and the passes over a whole file. The second half shows that it prints what module
 GrepScan says, whatever the buffer held before.
 */
module GrepMachine {
  import opened Bytes
  import opened GrepSpec
  import opened GrepScan

  type Buffer = b: seq<byte> | |b| == BUFSIZE + 1 witness seq(1025, _ => 0)

  // ---------------------------------------------------------------- the machine

  /**
   The string at `start` copied to the front. A NUL inside the unfinished row ends the copy there; the
   bytes behind stay what they were in the buffer.
   */
  function CarriedDown(b: Buffer, start: nat): (r: Buffer)
    requires start <= BUFSIZE && FirstNul(b, start) <= BUFSIZE
  {
    var n := FirstNul(b, start) - start;
    b[start..start + n + 1] + b[n + 1..]
  }

  /** Rows printed, the buffer left behind, and how many of its bytes are kept for the next pass. */
  datatype PassResult = PassResult(hits: seq<seq<byte>>, buf: Buffer, kept: nat)

  /** The inner loop from the row at `start` on; `more` says that the last read returned something. */
  ghost function PassFrom(b: Buffer, start: nat, filled: nat, more: bool, pat: seq<byte>): (r: PassResult)
    requires start <= filled <= BUFSIZE && (start == 0 || start < filled)
    ensures r.kept < BUFSIZE && r.kept <= filled - start && (!more ==> r.kept == 0)
    ensures r.buf[BUFSIZE] == NUL || r.buf[BUFSIZE] == b[BUFSIZE]
    decreases filled - start
  {
    var end := FirstNewline(b, start, filled);
    var b1: Buffer := b[end := NUL];
    assert b1[end] == NUL;
    if b[end] != NEWLINE && more && start != 0 then
      PassResult([], CarriedDown(b1, start), filled - start)
    else if end + 1 >= filled then
      PassResult(Shown(b[start..end], pat), b1, 0)
    else
      var r := PassFrom(b1, end + 1, filled, more, pat);
      r.(hits := Shown(b[start..end], pat) + r.hits)
  }

  function Refilled(b: Buffer, last: nat, got: seq<byte>): (r: Buffer)
    requires last + |got| <= BUFSIZE
  {
    b[..last] + got + b[last + |got|..]
  }

  datatype FileResult = FileResult(hits: seq<seq<byte>>, buf: Buffer)

  /** The outer loop with `pos` bytes of the file read and `last` bytes kept. */
  ghost function GrepFrom(text: seq<byte>, pos: nat, b: Buffer, last: nat, pat: seq<byte>): (r: FileResult)
    requires pos <= |text| && last < BUFSIZE
    ensures r.buf[BUFSIZE] == NUL || r.buf[BUFSIZE] == b[BUFSIZE]
    decreases |text| - pos
  {
    var got := Slice(text, pos, BUFSIZE - last);
    var p := PassFrom(Refilled(b, last, got), 0, last + |got|, got != [], pat);
    if got == [] then FileResult(p.hits, p.buf) else
      var r := GrepFrom(text, pos + |got|, p.buf, p.kept, pat);
      r.(hits := p.hits + r.hits)
  }

  /** What `do_one_file` prints for a file, and the buffer it leaves, from the buffer it found. */
  ghost function GrepFile(text: seq<byte>, b: Buffer, pat: seq<byte>): (r: FileResult)
    ensures r.buf[BUFSIZE] == NUL || r.buf[BUFSIZE] == b[BUFSIZE]
  {
    GrepFrom(text, 0, b, 0, pat)
  }

  // ---------------------------------------------------------------- one pass shows rows and forms the next text

  /** Buffer bytes `from .. to` are the bytes of the file at the same distance. */
  ghost predicate Mirrors(b: seq<byte>, from: nat, to: nat, rest: seq<byte>) {
    from <= to <= |b| && to <= |rest| && forall k :: from <= k < to ==> b[k] == rest[k]
  }

  /** The byte behind the buffer, never written by a read, holds a newline. */
  ghost predicate Stale(b: Buffer) { b[BUFSIZE] == NEWLINE }

  /** The state of a pass at the row at `start`: newlines before it have become NULs. */
  ghost predicate AtRow(b: Buffer, start: nat, w: seq<byte>) {
    && start <= |w| <= BUFSIZE && (start == 0 || start < |w|) && Mirrors(b, start, |w|, w)
    && (start > 0 ==> w[start - 1] == NEWLINE) && forall k :: 0 <= k < start ==> b[k] == Blank(w[k])
  }

  /** The condition under which the pass carries its unfinished row down. */
  ghost predicate Carries(b: Buffer, w: seq<byte>, more: bool)
    requires |w| <= BUFSIZE
  {
    0 < LastRowStart(w) < |w| && more && b[|w|] != NEWLINE
  }

  lemma NextRow(b: Buffer, start: nat, w: seq<byte>)
    requires AtRow(b, start, w)
    ensures var end := FirstNewline(b, start, |w|);
            && end == FirstNewline(w, start, |w|) && b[start..end] == w[start..end]
            && (end + 1 < |w| ==> AtRow(b[end := NUL], end + 1, w))
            && (end + 1 >= |w| ==> LastRowStart(w) == if end < |w| then |w| else start)
  {
    hide LastRowStart;
    var end := FirstNewline(b, start, |w|);
    FirstNewlineIs(w, start, |w|, end);
    if end + 1 >= |w| {
      LastRowStartIs(w, if end < |w| then |w| else start);
    }
  }

  lemma FirstNewlineIs(b: seq<byte>, start: nat, last: nat, e: nat)
    requires start <= e <= last <= |b| && (e < last ==> b[e] == NEWLINE)
    requires forall k :: start <= k < e ==> b[k] != NEWLINE
    ensures FirstNewline(b, start, last) == e
  {
  }

  /** A row with more of the buffer behind it is searched and the pass goes on. */
  lemma InnerRow(b: Buffer, start: nat, filled: nat, more: bool, pat: seq<byte>)
    requires start <= filled <= BUFSIZE && (start == 0 || start < filled) && FirstNewline(b, start, filled) + 1 < filled
    ensures var end := FirstNewline(b, start, filled);
            var r := PassFrom(b[end := NUL], end + 1, filled, more, pat);
            PassFrom(b, start, filled, more, pat) == r.(hits := Shown(b[start..end], pat) + r.hits)
  {
  }

  /** The last row of the buffer is carried down or searched. */
  lemma FinalRow(b: Buffer, start: nat, filled: nat, more: bool, pat: seq<byte>)
    requires start <= filled <= BUFSIZE && (start == 0 || start < filled)
    requires FirstNewline(b, start, filled) + 1 >= filled
    ensures var end := FirstNewline(b, start, filled);
            var r := PassFrom(b, start, filled, more, pat);
            var b1: Buffer := b[end := NUL];
            if b[end] != NEWLINE && more && start != 0
            then FirstNul(b1, start) <= end == filled && r == PassResult([], CarriedDown(b1, start), filled - start)
            else r == PassResult(Shown(b[start..end], pat), b1, 0)
    ensures PassFrom(b, start, filled, more, pat).buf[BUFSIZE] == b[FirstNewline(b, start, filled) := NUL][BUFSIZE]
  {
    var end := FirstNewline(b, start, filled);
    assert b[end := NUL][end] == NUL;
  }

  /** A pass keeps the unfinished row or nothing, and a cut at the buffer's end clears the byte behind it. */
  lemma {:induction false} PassShape(b: Buffer, start: nat, w: seq<byte>, more: bool, pat: seq<byte>)
    requires AtRow(b, start, w)
    ensures var r := PassFrom(b, start, |w|, more, pat);
            && r.kept == (if Carries(b, w, more) then |w| - LastRowStart(w) else 0)
            && r.buf[BUFSIZE] == if |w| == BUFSIZE && LastRowStart(w) < BUFSIZE then NUL else b[BUFSIZE]
    decreases |w| - start
  {
    hide PassFrom;
    hide LastRowStart;
    hide CarriedDown;
    hide Shown;
    hide FirstNewline;
    var end := FirstNewline(b, start, |w|);
    NextRow(b, start, w);
    if end + 1 < |w| {
      InnerRow(b, start, |w|, more, pat);
      PassShape(b[end := NUL], end + 1, w, more, pat);
    } else {
      FinalRow(b, start, |w|, more, pat);
    }
  }

  /** A pass prints the rows of the buffer up to the part it keeps. */
  lemma {:induction false} PassRows(b: Buffer, start: nat, w: seq<byte>, more: bool, pat: seq<byte>)
    requires AtRow(b, start, w)
    ensures var r := PassFrom(b, start, |w|, more, pat);
            r.hits == ShownRows(w, start, |w| - r.kept, pat)
    decreases |w| - start
  {
    hide PassFrom;
    hide ShownRows;
    hide CarriedDown;
    hide Shown;
    hide FirstNewline;
    hide AtRow;
    AtRowBounds(b, start, w);
    var end := FirstNewline(b, start, |w|);
    NextRow(b, start, w);
    if end + 1 < |w| {
      InnerRow(b, start, |w|, more, pat);
      PassRows(b[end := NUL], end + 1, w, more, pat);
      RowShown(w, start, end, |w| - PassFrom(b, start, |w|, more, pat).kept, pat);
    } else {
      FinalRow(b, start, |w|, more, pat);
      if PassFrom(b, start, |w|, more, pat).kept == 0 {
        LastShown(w, start, end, pat);
      } else {
        NothingShown(w, start, pat);
      }
    }
  }

  lemma AtRowBounds(b: Buffer, start: nat, w: seq<byte>)
    requires AtRow(b, start, w)
    ensures start <= |w| <= BUFSIZE && (start == 0 || start < |w|)
  {
  }

  lemma NothingShown(w: seq<byte>, start: nat, pat: seq<byte>)
    requires start <= |w|
    ensures ShownRows(w, start, start, pat) == []
  {
  }

  lemma RowShown(w: seq<byte>, start: nat, end: nat, stop: nat, pat: seq<byte>)
    requires start <= |w| && end == FirstNewline(w, start, |w|) < stop <= |w|
    ensures ShownRows(w, start, stop, pat) == Shown(w[start..end], pat) + ShownRows(w, end + 1, stop, pat)
  {
    FirstNewlineIs(w, start, stop, end);
  }

  lemma LastShown(w: seq<byte>, start: nat, end: nat, pat: seq<byte>)
    requires start <= |w| && end == FirstNewline(w, start, |w|) && end + 1 >= |w|
    ensures ShownRows(w, start, |w|, pat) == Shown(w[start..end], pat)
  {
    if start == |w| {
      assert w[start..end] == [];
      EmptyRowHitsNothing(pat);
    } else {
      hide Shown;
    }
  }

  lemma EmptyRowHitsNothing(pat: seq<byte>)
    ensures Shown([], pat) == []
  {
  }

  /** No newline among the first `n` bytes. */
  ghost predicate Scrubbed(b: Buffer, n: nat) {
    n <= BUFSIZE && forall k :: 0 <= k < n ==> b[k] != NEWLINE
  }

  /** The kept bytes are the carried row as it is formed, and no newline of the filled part is left. */
  lemma {:induction false} PassForms(b: Buffer, start: nat, w: seq<byte>, more: bool, pat: seq<byte>)
    requires AtRow(b, start, w)
    ensures var r := PassFrom(b, start, |w|, more, pat);
            && (r.kept > 0 ==> r.kept <= |w| && r.buf[..r.kept] == Formed(w, |w| - r.kept))
            && Scrubbed(r.buf, |w|)
    decreases |w| - start
  {
    hide PassFrom;
    hide CarriedDown;
    hide Shown;
    hide FirstNewline;
    hide LastRowStart;
    hide AtRow;
    hide Formed;
    hide Scrubbed;
    AtRowBounds(b, start, w);
    var end := FirstNewline(b, start, |w|);
    NextRow(b, start, w);
    if end + 1 < |w| {
      InnerRow(b, start, |w|, more, pat);
      PassForms(b[end := NUL], end + 1, w, more, pat);
    } else {
      FinalRow(b, start, |w|, more, pat);
      if PassFrom(b, start, |w|, more, pat).kept > 0 {
        CarryForms(b, start, w);
      } else {
        LastRowScrubs(b, start, w);
      }
    }
  }

  lemma LastRowScrubs(b: Buffer, start: nat, w: seq<byte>)
    requires AtRow(b, start, w) && FirstNewline(b, start, |w|) + 1 >= |w|
    ensures Scrubbed(b[FirstNewline(b, start, |w|) := NUL], |w|)
  {
    hide FirstNewline;
  }

  lemma CarriedByte(b: Buffer, start: nat, k: nat)
    requires start <= BUFSIZE && FirstNul(b, start) <= BUFSIZE && k <= BUFSIZE
    ensures CarriedDown(b, start)[k] == if start + k <= FirstNul(b, start) then b[start + k] else b[k]
  {
    hide FirstNul;
  }

  lemma CarryForms(b: Buffer, start: nat, w: seq<byte>)
    requires AtRow(b, start, w) && 0 < start < |w| && FirstNewline(b, start, |w|) == |w|
    ensures FirstNul(b[|w| := NUL], start) <= |w|
    ensures var r := CarriedDown(b[|w| := NUL], start);
            r[..|w| - start] == Formed(w, start) && Scrubbed(r, |w|)
  {
    hide FirstNul;
    hide FirstNewline;
    var b1: Buffer := b[|w| := NUL];
    assert b1[|w|] == NUL;
    FirstNulAgrees(b1, w, start);
    var r := CarriedDown(b1, start);
    hide CarriedDown;
    forall k | 0 <= k < |w|
      ensures r[k] != NEWLINE && (k < |w| - start ==> r[k] == FormedByte(w, start, k))
    {
      CarriedByte(b1, start, k);
    }
  }

  lemma FirstNulAgrees(b: seq<byte>, w: seq<byte>, start: nat)
    requires start <= |w| < |b| && b[|w|] == NUL && forall k :: start <= k < |w| ==> b[k] == w[k]
    ensures FirstNul(b, start) == FirstNul(w, start)
  {
    hide FirstNul;
    var z, y := FirstNul(b, start), FirstNul(w, start);
    assert z <= |w|;
    assert z < |w| ==> w[z] == NUL;
    assert y < |w| ==> b[y] == NUL;
  }

  // ---------------------------------------------------------------- all passes

  /** What the machine takes for the rest of the file: the kept bytes and what has not been read. */
  ghost function Ahead(text: seq<byte>, pos: nat, b: Buffer, last: nat): (v: seq<byte>)
    requires pos <= |text| && last < BUFSIZE
    ensures |v| == last + |text| - pos
  {
    b[..last] + text[pos..]
  }

  /** Kept bytes hold no newline, and a short read will not find one behind what it delivers. */
  ghost predicate Ready(text: seq<byte>, pos: nat, b: Buffer, last: nat) {
    && pos <= |text| && last < BUFSIZE && (forall k :: 0 <= k < last ==> b[k] != NEWLINE)
    && (0 < |text| - pos < BUFSIZE - last ==> b[last + |text| - pos] != NEWLINE)
  }

  /** A refilled buffer holds the window of what is ahead. */
  lemma RefilledAtRow(text: seq<byte>, pos: nat, b: Buffer, last: nat)
    requires pos <= |text| && last < BUFSIZE
    ensures var got := Slice(text, pos, BUFSIZE - last);
            var b0, v := Refilled(b, last, got), Ahead(text, pos, b, last);
            var w := Window(v);
            && |w| == last + |got| && AtRow(b0, 0, w) && Stale(b0) == Stale(b) && b0[|w|] == b[|w|]
            && v[|w|..] == text[pos + |got|..]
  {
    var got := Slice(text, pos, BUFSIZE - last);
    var b0, v := Refilled(b, last, got), Ahead(text, pos, b, last);
    assert forall k :: 0 <= k < last + |got| ==> b0[k] == v[k];
  }

  /** One round of the outer loop. */
  lemma GrepUnfolds(text: seq<byte>, pos: nat, b: Buffer, last: nat, pat: seq<byte>)
    requires pos <= |text| && last < BUFSIZE
    ensures var got := Slice(text, pos, BUFSIZE - last);
            var p := PassFrom(Refilled(b, last, got), 0, last + |got|, got != [], pat);
            GrepFrom(text, pos, b, last, pat) ==
            if got == [] then FileResult(p.hits, p.buf) else
            var r := GrepFrom(text, pos + |got|, p.buf, p.kept, pat);
            r.(hits := p.hits + r.hits)
  {
  }

  /** A pass carries a row down exactly when the scan of the file does. */
  lemma SameCarry(text: seq<byte>, pos: nat, b: Buffer, last: nat)
    requires Ready(text, pos, b, last)
    ensures var got := Slice(text, pos, BUFSIZE - last);
            var w := Window(Ahead(text, pos, b, last));
            |w| == last + |got| && (Carries(Refilled(b, last, got), w, got != []) <==> CarriesRow(w, Stale(b)))
  {
    hide LastRowStart;
    var got := Slice(text, pos, BUFSIZE - last);
    var v := Ahead(text, pos, b, last);
    var w := Window(v);
    RefilledAtRow(text, pos, b, last);
    if got == [] {
      assert w == v == b[..last];
      assert forall k :: 0 <= k < |w| ==> w[k] != NEWLINE;
    }
  }

  /** What one round prints, and whether the byte behind the buffer is still a newline. */
  lemma RoundShows(text: seq<byte>, pos: nat, b: Buffer, last: nat, pat: seq<byte>)
    requires Ready(text, pos, b, last)
    ensures var got := Slice(text, pos, BUFSIZE - last);
            var w := Window(Ahead(text, pos, b, last));
            var p := PassFrom(Refilled(b, last, got), 0, last + |got|, got != [], pat);
            && |w| == last + |got| && p.kept == |w| - ShownTo(w, Stale(b))
            && p.hits == ShownRows(w, 0, ShownTo(w, Stale(b)), pat) && Stale(p.buf) == StaleAfter(w, Stale(b))
  {
    hide PassFrom;
    hide LastRowStart;
    hide ShownRows;
    hide Refilled;
    hide AtRow;
    hide Ahead;
    var got := Slice(text, pos, BUFSIZE - last);
    var b0, w := Refilled(b, last, got), Window(Ahead(text, pos, b, last));
    RefilledAtRow(text, pos, b, last);
    SameCarry(text, pos, b, last);
    hide Ready;
    PassShape(b0, 0, w, got != [], pat);
    PassRows(b0, 0, w, got != [], pat);
  }

  /** `front` is what a round keeps of the text `v`. */
  ghost predicate Keeps(v: seq<byte>, stale: bool, front: seq<byte>) {
    var w := Window(v);
    |front| == |w| - ShownTo(w, stale) && (front != [] ==> front == Formed(w, |w| - |front|))
  }

  lemma NextIs(v: seq<byte>, stale: bool, front: seq<byte>)
    requires Keeps(v, stale, front)
    ensures NextText(v, stale) == front + v[|Window(v)|..]
  {
    hide LastRowStart;
    hide Formed;
  }

  lemma RoundKeeps(text: seq<byte>, pos: nat, b: Buffer, last: nat, pat: seq<byte>)
    requires Ready(text, pos, b, last)
    ensures var got := Slice(text, pos, BUFSIZE - last);
            var p := PassFrom(Refilled(b, last, got), 0, last + |got|, got != [], pat);
            Keeps(Ahead(text, pos, b, last), Stale(b), p.buf[..p.kept])
  {
    hide PassFrom;
    hide ShownRows;
    hide Refilled;
    hide AtRow;
    hide Formed;
    hide Scrubbed;
    hide Ahead;
    hide LastRowStart;
    hide ShownTo;
    hide Window;
    var got := Slice(text, pos, BUFSIZE - last);
    RefilledAtRow(text, pos, b, last);
    RoundShows(text, pos, b, last, pat);
    PassForms(Refilled(b, last, got), 0, Window(Ahead(text, pos, b, last)), got != [], pat);
  }

  lemma AheadBehindWindow(text: seq<byte>, pos: nat, b: Buffer, last: nat)
    requires pos <= |text| && last < BUFSIZE
    ensures var v := Ahead(text, pos, b, last);
            v[|Window(v)|..] == text[pos + |Slice(text, pos, BUFSIZE - last)|..]
  {
    RefilledAtRow(text, pos, b, last);
    hide *;
  }

  lemma AheadIsNext(text: seq<byte>, pos: nat, b: Buffer, kept: nat, v: seq<byte>, stale: bool)
    requires pos <= |text| && kept < BUFSIZE && Keeps(v, stale, b[..kept]) && v[|Window(v)|..] == text[pos..]
    ensures Ahead(text, pos, b, kept) == NextText(v, stale)
  {
    NextIs(v, stale, b[..kept]);
    hide NextText;
    hide Keeps;
    hide Window;
  }

  /** What is ahead after one round. */
  lemma RoundLeaves(text: seq<byte>, pos: nat, b: Buffer, last: nat, pat: seq<byte>)
    requires Ready(text, pos, b, last)
    ensures var got := Slice(text, pos, BUFSIZE - last);
            var p := PassFrom(Refilled(b, last, got), 0, last + |got|, got != [], pat);
            Ahead(text, pos + |got|, p.buf, p.kept) == NextText(Ahead(text, pos, b, last), Stale(b))
  {
    hide Ready;
    hide PassFrom;
    hide Refilled;
    hide NextText;
    hide Window;
    hide Keeps;
    hide Slice;
    hide Ahead;
    hide Stale;
    ReadyBounds(text, pos, b, last);
    RoundKeeps(text, pos, b, last, pat);
    AheadBehindWindow(text, pos, b, last);
    var got := Slice(text, pos, BUFSIZE - last);
    var p := PassFrom(Refilled(b, last, got), 0, last + |got|, got != [], pat);
    AheadIsNext(text, pos + |got|, p.buf, p.kept, Ahead(text, pos, b, last), Stale(b));
  }

  /** After one round the buffer is ready for the next. */
  lemma RoundStaysReady(text: seq<byte>, pos: nat, b: Buffer, last: nat, pat: seq<byte>)
    requires Ready(text, pos, b, last)
    ensures var got := Slice(text, pos, BUFSIZE - last);
            var p := PassFrom(Refilled(b, last, got), 0, last + |got|, got != [], pat);
            Ready(text, pos + |got|, p.buf, p.kept)
  {
    hide PassFrom;
    hide Refilled;
    hide AtRow;
    hide Formed;
    hide Ahead;
    var got := Slice(text, pos, BUFSIZE - last);
    RefilledAtRow(text, pos, b, last);
    PassForms(Refilled(b, last, got), 0, Window(Ahead(text, pos, b, last)), got != [], pat);
  }

  ghost predicate Begins(w: seq<byte>, s: seq<byte>) {
    |w| <= |s| && forall k :: 0 <= k < |w| ==> w[k] == s[k]
  }

  lemma SameRow(w: seq<byte>, s: seq<byte>, start: nat, stop: nat)
    requires Begins(w, s) && start <= stop <= |w|
    ensures var e := FirstNewline(s, start, stop); FirstNewline(w, start, stop) == e && w[start..e] == s[start..e]
  {
    hide FirstNewline;
    FirstNewlineIs(w, start, stop, FirstNewline(s, start, stop));
  }

  /** Rows of the window are rows of the file. */
  lemma {:induction false} SameRows(w: seq<byte>, s: seq<byte>, start: nat, stop: nat, pat: seq<byte>)
    requires Begins(w, s) && start <= stop <= |w|
    ensures stop <= |s| && ShownRows(w, start, stop, pat) == ShownRows(s, start, stop, pat)
    decreases stop - start
  {
    hide Shown;
    hide FirstNewline;
    assert |w| <= |s|;
    hide Begins;
    if start < stop {
      SameRow(w, s, start, stop);
      var e := FirstNewline(s, start, stop);
      if e < stop {
        SameRows(w, s, e + 1, stop, pat);
      }
    }
  }

  /** For every file and every buffer that is ready, the machine prints what the scan of the file says. */
  lemma {:induction false} MachineScans(text: seq<byte>, pos: nat, b: Buffer, last: nat, pat: seq<byte>)
    requires Ready(text, pos, b, last)
    ensures GrepFrom(text, pos, b, last, pat).hits == Scanned(Ahead(text, pos, b, last), Stale(b), pat)
    decreases |text| - pos
  {
    hide PassFrom;
    hide GrepFrom;
    hide Refilled;
    hide Ready;
    hide Scanned;
    hide NextText;
    hide StaleAfter;
    hide ShownRows;
    hide Stale;
    ReadyBounds(text, pos, b, last);
    var v, got := Ahead(text, pos, b, last), Slice(text, pos, BUFSIZE - last);
    var p := PassFrom(Refilled(b, last, got), 0, last + |got|, got != [], pat);
    RoundShows(text, pos, b, last, pat);
    RoundLeaves(text, pos, b, last, pat);
    RoundStaysReady(text, pos, b, last, pat);
    GrepUnfolds(text, pos, b, last, pat);
    ScannedUnfolds(v, Stale(b), pat);
    if got == [] {
      assert NextText(v, Stale(b)) == [];
      ScansNothing(StaleAfter(Window(v), Stale(b)), pat);
    } else {
      MachineScans(text, pos + |got|, p.buf, p.kept, pat);
    }
  }

  lemma ScannedUnfolds(v: seq<byte>, stale: bool, pat: seq<byte>)
    ensures var w := Window(v);
            Scanned(v, stale, pat) ==
            ShownRows(w, 0, ShownTo(w, stale), pat) + Scanned(NextText(v, stale), StaleAfter(w, stale), pat)
  {
    hide LastRowStart;
    var w := Window(v);
    if v == [] {
      assert NextText(v, stale) == [];
      NothingShown(w, 0, pat);
    } else {
      SameRows(w, v, 0, ShownTo(w, stale), pat);
      hide ShownRows;
    }
  }

  lemma ScansNothing(stale: bool, pat: seq<byte>)
    ensures Scanned([], stale, pat) == []
  {
  }

  lemma ReadyBounds(text: seq<byte>, pos: nat, b: Buffer, last: nat)
    requires Ready(text, pos, b, last)
    ensures pos <= |text| && last < BUFSIZE
  {
  }

  // ---------------------------------------------------------------- a whole file

  /** The file ends inside the buffer, right before a newline left there from before. */
  ghost predicate Closed(text: seq<byte>, b: Buffer) {
    0 < |text| < BUFSIZE && b[|text|] == NEWLINE
  }

  /** What is printed for a file: the buffer found matters only through two of its bytes. */
  lemma GrepFileScans(text: seq<byte>, b: Buffer, pat: seq<byte>)
    ensures GrepFile(text, b, pat).hits ==
            if Closed(text, b) then ShownRows(text, 0, |text|, pat) else Scanned(text, Stale(b), pat)
  {
    hide GrepFrom;
    hide ShownRows;
    if Closed(text, b) {
      ClosedFile(text, b, pat);
    } else {
      assert Ahead(text, 0, b, 0) == text;
      MachineScans(text, 0, b, 0, pat);
    }
  }

  lemma ClosedFile(text: seq<byte>, b: Buffer, pat: seq<byte>)
    requires Closed(text, b)
    ensures GrepFrom(text, 0, b, 0, pat).hits == ShownRows(text, 0, |text|, pat)
  {
    hide GrepFrom;
    hide ShownRows;
    hide PassFrom;
    hide Refilled;
    hide Scanned;
    ClosedPass(text, b, pat);
    GrepUnfolds(text, 0, b, 0, pat);
    var left := PassFrom(Refilled(b, 0, text), 0, |text|, true, pat).buf;
    assert Ahead(text, |text|, left, 0) == [];
    MachineScans(text, |text|, left, 0, pat);
    ScansNothing(Stale(left), pat);
  }

  lemma ClosedPass(text: seq<byte>, b: Buffer, pat: seq<byte>)
    requires Closed(text, b)
    ensures Slice(text, 0, BUFSIZE) == text
    ensures var p := PassFrom(Refilled(b, 0, text), 0, |text|, true, pat);
            p.hits == ShownRows(text, 0, |text|, pat) && p.kept == 0
  {
    hide ShownRows;
    hide PassFrom;
    hide Refilled;
    hide LastRowStart;
    hide AtRow;
    var b0 := Refilled(b, 0, text);
    assert Slice(text, 0, BUFSIZE) == text;
    assert Ahead(text, 0, b, 0) == text == Window(text);
    RefilledAtRow(text, 0, b, 0);
    PassShape(b0, 0, text, true, pat);
    PassRows(b0, 0, text, true, pat);
  }

  lemma ClosedIsPrinted(text: seq<byte>, stale: bool, pat: seq<byte>)
    requires 0 < |text| < BUFSIZE
    ensures ShownRows(text, 0, |text|, pat) == Printed(text, BUFSIZE, stale, pat)
  {
    hide ShownRows;
    AllRows(text, 0, |text|, stale, false, pat);
    assert text[0..] == text && text[|text|..] == [];
    PrintedNothing(BUFSIZE, stale, pat);
    hide Printed;
  }

  /** Two buffers that agree on those two bytes give the same output. */
  lemma BufferMatters(text: seq<byte>, b: Buffer, b': Buffer, pat: seq<byte>)
    requires Stale(b) == Stale(b') && Closed(text, b) == Closed(text, b')
    ensures GrepFile(text, b, pat).hits == GrepFile(text, b', pat).hits
  {
    GrepFileScans(text, b, pat);
    GrepFileScans(text, b', pat);
  }

  /** No clipped row hits: the file ends right before an old newline, or the scan of the file is quiet. */
  ghost predicate NoNoise(text: seq<byte>, b: Buffer, pat: seq<byte>) {
    Closed(text, b) || Quiet(text, false, Stale(b), pat)
  }

  /**
   Main result about one file: for every file, every pattern and every buffer found, the lines that
   contain the pattern are printed, in order and once each and nothing else, exactly when no such line is
   torn, cut at a NUL or unsearchable and no clipped row hits.
   */
  lemma GrepIsExpected(text: seq<byte>, b: Buffer, pat: seq<byte>)
    ensures GrepFile(text, b, pat).hits == Expected(text, pat) <==>
            Intact(text, BUFSIZE, Stale(b), pat) && NoNoise(text, b, pat)
  {
    hide GrepFile;
    hide ShownRows;
    hide Printed;
    hide Intact;
    hide Expected;
    hide Scanned;
    hide Quiet;
    GrepFileScans(text, b, pat);
    if Closed(text, b) {
      ClosedIsPrinted(text, Stale(b), pat);
      PrintedIsExpected(text, BUFSIZE, Stale(b), pat);
    } else {
      ScannedIsExpected(text, Stale(b), pat);
    }
  }

  /** Every file that carries safely prints exactly its rows, from every buffer. */
  lemma GrepPrints(text: seq<byte>, b: Buffer, pat: seq<byte>)
    requires CarriesClean(text, Stale(b))
    ensures GrepFile(text, b, pat).hits == Printed(text, BUFSIZE, Stale(b), pat)
  {
    hide GrepFile;
    hide ShownRows;
    hide Printed;
    hide Scanned;
    hide CarriesClean;
    GrepFileScans(text, b, pat);
    if Closed(text, b) {
      ClosedIsPrinted(text, Stale(b), pat);
    } else {
      CleanIsPrinted(text, Stale(b), pat);
    }
  }

  // ---------------------------------------------------------------- NULs in carried rows

  /** A file shorter than the buffer: its finished rows, and its last one as it is carried down. */
  lemma ShortFile(text: seq<byte>, stale: bool, pat: seq<byte>)
    requires |text| < BUFSIZE && 0 < LastRowStart(text) < |text|
    ensures var ls := LastRowStart(text);
            Scanned(text, stale, pat) == ShownRows(text, 0, ls, pat) + Shown(Formed(text, ls), pat)
  {
    var ls := LastRowStart(text);
    ShortNext(text, stale);
    ScannedUnfolds(text, stale, pat);
    hide Scanned;
    hide NextText;
    hide StaleAfter;
    hide ShownRows;
    hide LastRowStart;
    OneRow(Formed(text, ls), stale, pat);
  }

  lemma ShortNext(text: seq<byte>, stale: bool)
    requires |text| < BUFSIZE && 0 < LastRowStart(text) < |text|
    ensures var ls := LastRowStart(text);
            && Window(text) == text && ShownTo(text, stale) == ls && StaleAfter(text, stale) == stale
            && NextText(text, stale) == Formed(text, ls)
            && forall k :: 0 <= k < |text| - ls ==> Formed(text, ls)[k] != NEWLINE
  {
    hide LastRowStart;
    hide FirstNul;
    assert Window(text) == text && text[|text|..] == [];
  }

  lemma OneRow(row: seq<byte>, stale: bool, pat: seq<byte>)
    requires 0 < |row| < BUFSIZE && forall k :: 0 <= k < |row| ==> row[k] != NEWLINE
    ensures Scanned(row, stale, pat) == Shown(row, pat)
  {
    hide Shown;
    LastRowStartIs(row, 0);
    hide LastRowStart;
    assert Window(row) == row && NextText(row, stale) == [];
    FirstNewlineIs(row, 0, |row|, |row|);
    LastShown(row, 0, |row|, pat);
    assert row[0..|row|] == row;
  }

  /** `AB`, a newline, a NUL and `AA`. */
  const INVENTING: seq<byte> := [65, 66, NEWLINE, NUL, 65, 65]

  /** Looking for `B`, an empty row is printed that no line accounts for, unless an old newline follows. */
  lemma NulInventsARow(b: Buffer)
    requires !Stale(b)
    ensures Expected(INVENTING, [66]) == [[65, 66]]
    ensures GrepFile(INVENTING, b, [66]).hits == if b[6] == NEWLINE then [[65, 66]] else [[65, 66], []]
  {
    hide GrepFile;
    var text := INVENTING;
    GrepFileScans(text, b, [66]);
    InventingLines();
    InventingScan();
  }

  lemma HasB(row: seq<byte>, i: nat)
    requires i < |row| && row[i] == 66
    ensures Contains(row, [66]) && Shown(row, [66]) == [Visible(row)]
  {
    assert MatchAt(row, [66], i);
  }

  lemma NoB(row: seq<byte>)
    requires 66 !in row
    ensures !Contains(row, [66]) && Shown(row, [66]) == []
  {
    assert forall i :: 0 <= i < |row| && MatchAt(row, [66], i) ==> row[i] == [66][0];
  }

  lemma InventingLines()
    ensures Expected(INVENTING, [66]) == [[65, 66]]
    ensures ShownRows(INVENTING, 0, 3, [66]) == ShownRows(INVENTING, 0, 6, [66]) == [[65, 66]]
  {
    var text, end: seq<byte> := INVENTING, [NUL, 65, 65];
    HasB([65, 66], 1);
    NoB(end);
    hide Contains;
    hide Shown;
    LineEndIs(text, 2);
    LineEndIs(end, 3);
    hide LineEnd;
    assert text[..2] == text[0..2] == [65, 66] && text[3..] == text[3..6] == end == end[..3];
    assert AfterLine(end) == [] && Expected(end, [66]) == [];
    FirstNewlineIs(text, 0, 3, 2);
    FirstNewlineIs(text, 0, 6, 2);
    FirstNewlineIs(text, 3, 6, 6);
    assert ShownRows(text, 3, 6, [66]) == [];
  }

  lemma InventingScan()
    ensures Scanned(INVENTING, false, [66]) == [[65, 66], []]
  {
    hide LastRowStart;
    hide Formed;
    hide ShownRows;
    hide Shown;
    hide Scanned;
    hide Contains;
    var text: seq<byte>, next: seq<byte> := INVENTING, [NUL, 66, NUL];
    LastRowStartIs(text, 3);
    FormedNul(text, 3, next);
    ShortFile(text, false, [66]);
    InventingLines();
    HasB(next, 1);
    FirstIsNul(next);
  }

  /** A row that starts with a NUL keeps nothing else of itself. */
  lemma FormedNul(w: seq<byte>, ls: nat, next: seq<byte>)
    requires ls + |next| == |w| && ls < |w| && w[ls] == NUL && next[0] == NUL
    requires forall k :: 0 < k < |next| ==> next[k] == Blank(w[k])
    ensures Formed(w, ls) == next
  {
    hide FirstNul;
  }

  lemma FirstIsNul(row: seq<byte>)
    requires row != [] && row[0] == NUL
    ensures Visible(row) == []
  {
    CStringIsUnique(row, 0, |row|, []);
  }

  /** A newline, a NUL and `AB`. */
  const LOSING: seq<byte> := [NEWLINE, NUL, 65, 66]

  /** Looking for `B`, nothing is printed, although the row has it. */
  lemma NulLosesAMatch(b: Buffer)
    requires !Stale(b) && b[4] != NEWLINE
    ensures Printed(LOSING, BUFSIZE, false, [66]) == [[]] && GrepFile(LOSING, b, [66]).hits == []
  {
    hide GrepFile;
    GrepFileScans(LOSING, b, [66]);
    LosingRows();
    LosingScan();
  }

  lemma LosingRows()
    ensures ShownRows(LOSING, 0, 1, [66]) == [] && Printed(LOSING, BUFSIZE, false, [66]) == [[]]
  {
    var text, end: seq<byte> := LOSING, [NUL, 65, 66];
    NoB([]);
    HasB(end, 2);
    FirstIsNul(end);
    ClosedIsPrinted(text, false, [66]);
    hide Printed;
    hide Shown;
    FirstNewlineIs(text, 0, 1, 0);
    FirstNewlineIs(text, 0, 4, 0);
    FirstNewlineIs(text, 1, 4, 4);
    assert text[0..0] == [] && text[1..4] == end;
    assert ShownRows(text, 1, 4, [66]) == [[]];
  }

  lemma LosingScan()
    ensures Scanned(LOSING, false, [66]) == []
  {
    hide LastRowStart;
    hide Formed;
    hide ShownRows;
    hide Shown;
    hide Scanned;
    hide Contains;
    var text: seq<byte>, next: seq<byte> := LOSING, [NUL, NUL, 65];
    LastRowStartIs(text, 1);
    FormedNul(text, 1, next);
    ShortFile(text, false, [66]);
    LosingRows();
    NoB(next);
  }

  // ---------------------------------------------------------------- patterns that are not searched for

  /** What is visible of a row is everything before its first NUL. */
  lemma VisibleIs(row: seq<byte>)
    ensures Visible(row) == row[..FirstNul(row, 0)]
  {
    hide FirstNul;
    var z := FirstNul(row, 0);
    assert row[..z] == row[0..z];
    if z == |row| {
      assert row[..z] == row;
    }
    CStringIsUnique(row, 0, |row|, row[..z]);
  }

  lemma {:induction false} NoRowsShown(s: seq<byte>, start: nat, stop: nat, pat: seq<byte>)
    requires start <= stop <= |s| && pat != [] && !Searchable(pat)
    ensures ShownRows(s, start, stop, pat) == []
    decreases stop - start
  {
    if start < stop && FirstNewline(s, start, stop) < stop {
      NoRowsShown(s, FirstNewline(s, start, stop) + 1, stop, pat);
    }
  }

  lemma {:induction false} NothingScanned(v: seq<byte>, stale: bool, pat: seq<byte>)
    requires pat != [] && !Searchable(pat)
    ensures Scanned(v, stale, pat) == []
    decreases |v|
  {
    hide LastRowStart;
    if v != [] {
      NoRowsShown(v, 0, ShownTo(Window(v), stale), pat);
      NothingScanned(NextText(v, stale), StaleAfter(Window(v), stale), pat);
    }
  }

  /** A pattern whose first byte is 128 or more is found in no file. */
  lemma HighPatternIsNeverFound(text: seq<byte>, b: Buffer, pat: seq<byte>)
    requires pat != [] && pat[0] >= 128
    ensures GrepFile(text, b, pat).hits == []
  {
    GrepFileScans(text, b, pat);
    NothingScanned(text, Stale(b), pat);
    NoRowsShown(text, 0, |text|, pat);
  }

  /** A short file without newlines is one row. */
  lemma OneRowFile(text: seq<byte>, b: Buffer, pat: seq<byte>)
    requires 0 < |text| < BUFSIZE && NEWLINE !in text
    ensures GrepFile(text, b, pat).hits == Shown(text, pat)
  {
    hide GrepFile;
    hide Shown;
    hide Scanned;
    GrepFileScans(text, b, pat);
    assert forall k :: 0 <= k < |text| ==> text[k] in text;
    if Closed(text, b) {
      FirstNewlineIs(text, 0, |text|, |text|);
      LastShown(text, 0, |text|, pat);
      assert text[0..|text|] == text;
    } else {
      OneRow(text, Stale(b), pat);
    }
  }

  /** An empty pattern finds a row exactly when the row holds a NUL, and prints what is before it. */
  lemma EmptyPatternFindsNul(text: seq<byte>, b: Buffer)
    requires 0 < |text| < BUFSIZE && NEWLINE !in text
    ensures GrepFile(text, b, []).hits == if NUL in text then [text[..FirstNul(text, 0)]] else []
  {
    hide GrepFile;
    hide FirstNul;
    OneRowFile(text, b, []);
    VisibleIs(text);
    hide Visible;
  }
}
