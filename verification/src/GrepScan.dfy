/**
 What the sliding buffer of grep makes of a file, for files with any bytes, in terms of the file alone:
 the buffer is filled, its finished rows are shown, and the unfinished row at its end is carried down as
 a C string. Beside it stands the exact condition under which this prints the lines that contain the
 pattern.
 */
module GrepScan {
  import opened Bytes
  import opened GrepSpec

  // ---------------------------------------------------------------- one filled buffer

  /** Where the last, unfinished row of a filled buffer starts; 0 without a newline. */
  function LastRowStart(w: seq<byte>): (r: nat)
    ensures r <= |w| && (r > 0 ==> w[r - 1] == NEWLINE)
    ensures forall k :: r <= k < |w| ==> w[k] != NEWLINE
  {
    if w == [] || w[|w| - 1] == NEWLINE then |w| else LastRowStart(w[..|w| - 1])
  }

  lemma LastRowStartIs(w: seq<byte>, r: nat)
    requires r <= |w| && (r > 0 ==> w[r - 1] == NEWLINE) && forall k :: r <= k < |w| ==> w[k] != NEWLINE
    ensures LastRowStart(w) == r
  {
  }

  /** The part of the file that one filled buffer holds. */
  function Window(rest: seq<byte>): (w: seq<byte>)
    ensures |w| <= BUFSIZE && |w| <= |rest| && (|w| < BUFSIZE ==> w == rest) && (rest != [] ==> w != [])
    ensures w == rest[..|w|]
  {
    rest[..Min(BUFSIZE, |rest|)]
  }

  /** A newline that ended a row has become a NUL. */
  function Blank(c: byte): byte {
    if c == NEWLINE then NUL else c
  }

  /** Byte `k` of the unfinished row at `ls` after its string has been copied to the front of the buffer. */
  function FormedByte(w: seq<byte>, ls: nat, k: nat): byte
    requires ls + k < |w|
  {
    if ls + k <= FirstNul(w, ls) then w[ls + k] else Blank(w[k])
  }

  /** The row as it is carried down: up to its first NUL its own bytes, behind that older bytes of the buffer. */
  function Formed(w: seq<byte>, ls: nat): (r: seq<byte>)
    requires ls <= |w|
    ensures |r| == |w| - ls && forall k :: 0 <= k < |r| ==> r[k] == FormedByte(w, ls, k)
  {
    seq(|w| - ls, k requires 0 <= k < |w| - ls => FormedByte(w, ls, k))
  }

  /** The unfinished row at the end of the buffer is carried down, not shown. */
  predicate CarriesRow(w: seq<byte>, stale: bool) {
    0 < LastRowStart(w) < |w| && !(stale && |w| == BUFSIZE)
  }

  /** A row is carried down that holds a NUL before its last byte. */
  ghost predicate Clips(w: seq<byte>, stale: bool) {
    CarriesRow(w, stale) && FirstNul(w, LastRowStart(w)) + 1 < |w|
  }

  /** Where the shown part of the buffer ends. */
  function ShownTo(w: seq<byte>, stale: bool): (n: nat)
    ensures n <= |w| && (w != [] ==> n > 0)
  {
    if CarriesRow(w, stale) then LastRowStart(w) else |w|
  }

  function StaleAfter(w: seq<byte>, stale: bool): bool {
    stale && !(|w| == BUFSIZE && LastRowStart(w) < BUFSIZE)
  }

  /** What the next round takes for the rest of the file. */
  function NextText(v: seq<byte>, stale: bool): (r: seq<byte>)
    ensures |r| == |v| - ShownTo(Window(v), stale)
  {
    var w := Window(v);
    if CarriesRow(w, stale) then Formed(w, LastRowStart(w)) + v[|w|..] else v[|w|..]
  }

  /** The rows between `start` and `stop`, each ended by its newline or by `stop`. */
  ghost function ShownRows(s: seq<byte>, start: nat, stop: nat, pat: seq<byte>): seq<seq<byte>>
    requires start <= stop <= |s|
    decreases stop - start
  {
    if start == stop then [] else
      var e := FirstNewline(s, start, stop);
      Shown(s[start..e], pat) + if e < stop then ShownRows(s, e + 1, stop, pat) else []
  }

  /** Everything that is printed for a file. */
  ghost function Scanned(v: seq<byte>, stale: bool, pat: seq<byte>): seq<seq<byte>>
    decreases |v|
  {
    if v == [] then [] else
      var w := Window(v);
      ShownRows(v, 0, ShownTo(w, stale), pat) + Scanned(NextText(v, stale), StaleAfter(w, stale), pat)
  }

  // ---------------------------------------------------------------- rows of the file

  /** Bytes left for the row at `start` before the buffer is cut. */
  ghost function Room(start: nat, stale: bool): (r: nat)
    ensures 1 <= r <= BUFSIZE
  {
    if stale && start < BUFSIZE then BUFSIZE - start else BUFSIZE
  }

  lemma RowAtNewline(rest: seq<byte>, start: nat, end: nat, stale: bool, pat: seq<byte>)
    requires start <= end < |rest| && end < BUFSIZE && NEWLINE !in rest[start..end] && rest[end] == NEWLINE
    ensures Printed(rest[start..], Room(start, stale), stale, pat) ==
            Shown(rest[start..end], pat) + Printed(rest[end + 1..], Room(end + 1, stale), stale, pat)
  {
    hide Printed;
    hide Shown;
    hide LineEnd;
    var s := rest[start..];
    assert s[..end - start] == rest[start..end];
    LineEndIs(s, end - start);
    assert AfterLine(s) == rest[end + 1..];
    PrintedAtNewline(s, Room(start, stale), stale, pat);
  }

  lemma PrintedAtNewline(s: seq<byte>, room: nat, stale: bool, pat: seq<byte>)
    requires 1 <= room <= BUFSIZE && s != [] && LineEnd(s) < room
    ensures Printed(s, room, stale, pat) ==
            Shown(s[..LineEnd(s)], pat) + Printed(AfterLine(s), NextRoom(s, room, stale), stale, pat)
  {
  }

  lemma RowAtBufferEnd(rest: seq<byte>, start: nat, stale: bool, pat: seq<byte>)
    requires start < BUFSIZE <= |rest| && NEWLINE !in rest[start..BUFSIZE] && (stale || start == 0)
    ensures Printed(rest[start..], Room(start, stale), stale, pat) ==
            Shown(rest[start..BUFSIZE], pat) + Printed(rest[BUFSIZE..], BUFSIZE, false, pat)
  {
    var s, room := rest[start..], BUFSIZE - start;
    assert s[..room] == rest[start..BUFSIZE];
    assert s[room..] == rest[BUFSIZE..];
    assert LineEnd(s) >= room by {
      LineEndShape(s);
      assert forall k :: 0 <= k < room ==> s[k] == s[..room][k];
    }
  }

  lemma RowAtFileEnd(s: seq<byte>, room: nat, stale: bool, pat: seq<byte>)
    requires NEWLINE !in s && |s| < room <= BUFSIZE
    ensures Printed(s, room, stale, pat) == Shown(s, pat)
  {
    assert s[..|s|] == s;
    LineEndIs(s, |s|);
  }

  lemma PrintedNothing(room: nat, stale: bool, pat: seq<byte>)
    requires 1 <= room <= BUFSIZE
    ensures Printed([], room, stale, pat) == []
  {
  }

  /** The row that ends the pass, in each of the ways it can end. */
  lemma LastRow(rest: seq<byte>, start: nat, end: nat, last: nat, stale: bool, pat: seq<byte>)
    requires start <= end <= last <= |rest| && last <= end + 1 && last <= BUFSIZE
    requires NEWLINE !in rest[start..end] && (end < last ==> rest[end] == NEWLINE)
    requires last < BUFSIZE ==> last == |rest|
    requires start == 0 || start < last
    requires end == last == BUFSIZE ==> stale || start == 0
    ensures Printed(rest[start..], Room(start, stale), stale, pat) ==
            Shown(rest[start..end], pat) + Printed(rest[last..], BUFSIZE, stale && end != BUFSIZE, pat)
  {
    hide Printed;
    hide Shown;
    if end < last {
      RowAtNewline(rest, start, end, stale, pat);
      if last < BUFSIZE {
        assert rest[last..] == [];
        PrintedNothing(Room(last, stale), stale, pat);
        PrintedNothing(BUFSIZE, stale, pat);
      }
    } else if last == BUFSIZE {
      RowAtBufferEnd(rest, start, stale, pat);
    } else {
      assert rest[start..] == rest[start..end] && rest[last..] == [];
      RowAtFileEnd(rest[start..], Room(start, stale), stale, pat);
      PrintedNothing(BUFSIZE, stale && end != BUFSIZE, pat);
    }
  }

  /** Carrying an unfinished row down gives it the whole buffer, and changes nothing at the end of the file. */
  lemma CarriedRow(rest: seq<byte>, start: nat, last: nat, stale: bool, pat: seq<byte>)
    requires 0 < start < last <= |rest| && last <= BUFSIZE && NEWLINE !in rest[start..last]
    requires last < BUFSIZE ==> last == |rest|
    requires last == BUFSIZE ==> !stale
    ensures Printed(rest[start..], Room(start, stale), stale, pat) == Printed(rest[start..], BUFSIZE, stale, pat)
  {
    if last < BUFSIZE {
      assert rest[start..] == rest[start..last];
      RowAtFileEnd(rest[start..], Room(start, stale), stale, pat);
      RowAtFileEnd(rest[start..], BUFSIZE, stale, pat);
    }
  }

  // ---------------------------------------------------------------- shown rows and rows to come

  /** The rows still to be printed from offset `k` on. */
  ghost function PrintedAt(rest: seq<byte>, k: nat, room: nat, stale: bool, pat: seq<byte>): seq<seq<byte>>
    requires k <= |rest| && 1 <= room <= BUFSIZE
  {
    Printed(rest[k..], room, stale, pat)
  }

  /** The first row, shown and printed alike. */
  lemma RowStep(rest: seq<byte>, start: nat, stop: nat, stale: bool, pat: seq<byte>) returns (a: seq<seq<byte>>)
    requires start < stop <= |rest| && FirstNewline(rest, start, stop) < Min(stop, BUFSIZE)
    ensures var e := FirstNewline(rest, start, stop);
            && ShownRows(rest, start, stop, pat) == a + ShownRows(rest, e + 1, stop, pat)
            && PrintedAt(rest, start, Room(start, stale), stale, pat) ==
               a + PrintedAt(rest, e + 1, Room(e + 1, stale), stale, pat)
  {
    hide Printed;
    hide Shown;
    hide Room;
    hide FirstNewline;
    var e := FirstNewline(rest, start, stop);
    a := Shown(rest[start..e], pat);
    RowAtNewline(rest, start, e, stale, pat);
  }

  /** An unfinished row starts at `ls`, behind a newline, and the buffer does not cut it. */
  ghost predicate Unfinished(rest: seq<byte>, ls: nat, filled: nat, stale: bool) {
    && 0 < ls < filled <= |rest| && filled <= BUFSIZE && (filled < BUFSIZE ==> filled == |rest|)
    && rest[ls - 1] == NEWLINE && NEWLINE !in rest[ls..filled] && (filled == BUFSIZE ==> !stale)
  }

  lemma UnfinishedAt(rest: seq<byte>, start: nat, ls: nat, filled: nat, stale: bool)
    requires Unfinished(rest, ls, filled, stale) && start < ls
    ensures ls <= |rest| && ls < BUFSIZE && FirstNewline(rest, start, ls) < ls
  {
    hide FirstNewline;
  }

  lemma NothingFinished(rest: seq<byte>, ls: nat, filled: nat, stale: bool, pat: seq<byte>)
    requires Unfinished(rest, ls, filled, stale)
    ensures ls <= |rest|
    ensures ShownRows(rest, ls, ls, pat) + PrintedAt(rest, ls, BUFSIZE, stale, pat) ==
            PrintedAt(rest, ls, Room(ls, stale), stale, pat)
  {
    hide Printed;
    hide Room;
    CarriedRow(rest, ls, filled, stale, pat);
  }

  /** The rows before an unfinished one that is carried down. */
  lemma {:induction false} FinishedRows(rest: seq<byte>, start: nat, ls: nat, filled: nat, stale: bool, pat: seq<byte>)
    requires Unfinished(rest, ls, filled, stale) && start <= ls
    ensures ls <= |rest|
    ensures ShownRows(rest, start, ls, pat) + PrintedAt(rest, ls, BUFSIZE, stale, pat) ==
            PrintedAt(rest, start, Room(start, stale), stale, pat)
    decreases ls - start
  {
    hide Room;
    hide FirstNewline;
    hide PrintedAt;
    hide ShownRows;
    hide Unfinished;
    if start == ls {
      NothingFinished(rest, ls, filled, stale, pat);
    } else {
      UnfinishedAt(rest, start, ls, filled, stale);
      var e := FirstNewline(rest, start, ls);
      var a := RowStep(rest, start, ls, stale, pat);
      FinishedRows(rest, e + 1, ls, filled, stale, pat);
      Associative(a, ShownRows(rest, e + 1, ls, pat), PrintedAt(rest, ls, BUFSIZE, stale, pat));
    }
  }

  /** The buffer is filled, or the file ends in it; `torn` says that the buffer cuts the last row. */
  ghost predicate Cuts(rest: seq<byte>, filled: nat, stale: bool, torn: bool) {
    && 0 < filled <= |rest| && filled <= BUFSIZE && (filled < BUFSIZE ==> filled == |rest|)
    && (torn <==> filled == BUFSIZE && rest[filled - 1] != NEWLINE)
    && (torn && !stale ==> forall k :: 0 <= k < filled ==> rest[k] != NEWLINE)
  }

  lemma CutsAt(rest: seq<byte>, filled: nat, stale: bool, torn: bool)
    requires Cuts(rest, filled, stale, torn)
    ensures 0 < filled <= |rest| && filled <= BUFSIZE
  {
  }

  lemma LastOfAll(rest: seq<byte>, start: nat, filled: nat, stale: bool, torn: bool, pat: seq<byte>)
    requires Cuts(rest, filled, stale, torn) && start < filled && (start > 0 ==> rest[start - 1] == NEWLINE)
    requires FirstNewline(rest, start, filled) + 1 >= filled
    ensures ShownRows(rest, start, filled, pat) + PrintedAt(rest, filled, BUFSIZE, stale && !torn, pat) ==
            PrintedAt(rest, start, Room(start, stale), stale, pat)
  {
    hide Printed;
    hide Shown;
    hide Room;
    hide FirstNewline;
    var e := FirstNewline(rest, start, filled);
    LastRow(rest, start, e, filled, stale, pat);
    assert e < filled ==> ShownRows(rest, e + 1, filled, pat) == [];
  }

  /** All rows of the buffer, when nothing is carried down. */
  lemma {:induction false} AllRows(rest: seq<byte>, start: nat, filled: nat, stale: bool, torn: bool, pat: seq<byte>)
    requires Cuts(rest, filled, stale, torn) && start < filled && (start > 0 ==> rest[start - 1] == NEWLINE)
    ensures filled <= |rest|
    ensures ShownRows(rest, start, filled, pat) + PrintedAt(rest, filled, BUFSIZE, stale && !torn, pat) ==
            PrintedAt(rest, start, Room(start, stale), stale, pat)
    decreases filled - start
  {
    hide Room;
    hide FirstNewline;
    hide PrintedAt;
    hide ShownRows;
    hide Cuts;
    CutsAt(rest, filled, stale, torn);
    var e := FirstNewline(rest, start, filled);
    if e + 1 < filled {
      var a := RowStep(rest, start, filled, stale, pat);
      AllRows(rest, e + 1, filled, stale, torn, pat);
      Associative(a, ShownRows(rest, e + 1, filled, pat), PrintedAt(rest, filled, BUFSIZE, stale && !torn, pat));
    } else {
      LastOfAll(rest, start, filled, stale, torn, pat);
    }
  }

  /** The rows shown in one round and the rows of what follows are the rows of the file. */
  lemma ScanStep(v: seq<byte>, stale: bool, pat: seq<byte>)
    requires v != []
    ensures var w := Window(v);
            var n := ShownTo(w, stale);
            ShownRows(v, 0, n, pat) + Printed(v[n..], BUFSIZE, StaleAfter(w, stale), pat) ==
            Printed(v, BUFSIZE, stale, pat)
  {
    hide Printed;
    hide ShownRows;
    hide LastRowStart;
    var w := Window(v);
    assert v[0..] == v && w == v[..|w|];
    assert forall k :: 0 <= k < |w| ==> v[k] == w[k];
    if CarriesRow(w, stale) {
      FinishedRows(v, 0, LastRowStart(w), |w|, stale, pat);
    } else {
      AllRows(v, 0, |w|, stale, |w| == BUFSIZE && v[|w| - 1] != NEWLINE, pat);
    }
  }

  // ---------------------------------------------------------------- files that carry safely

  /** No row that is carried down holds a NUL before its last byte. */
  ghost predicate CarriesClean(v: seq<byte>, stale: bool)
    decreases |v|
  {
    v == [] ||
    var w := Window(v);
    !Clips(w, stale) && CarriesClean(v[ShownTo(w, stale)..], StaleAfter(w, stale))
  }

  lemma RestSplits(v: seq<byte>, lo: nat, hi: nat)
    requires lo <= hi <= |v|
    ensures v[lo..] == v[..hi][lo..] + v[hi..]
  {
  }

  lemma NextIsRest(v: seq<byte>, stale: bool)
    requires !Clips(Window(v), stale)
    ensures NextText(v, stale) == v[ShownTo(Window(v), stale)..]
  {
    hide LastRowStart;
    var w := Window(v);
    if CarriesRow(w, stale) {
      var ls := LastRowStart(w);
      assert Formed(w, ls) == w[ls..];
      RestSplits(v, ls, |w|);
    }
  }

  /** Files without NUL always carry safely. */
  lemma {:induction false} TextCarriesClean(v: seq<byte>, stale: bool)
    requires NUL !in v
    ensures CarriesClean(v, stale)
    decreases |v|
  {
    if v != [] {
      var w := Window(v);
      assert forall k :: 0 <= k < |w| ==> w[k] in v;
      TextCarriesClean(v[ShownTo(w, stale)..], StaleAfter(w, stale));
    }
  }

  /** For every file that carries safely, whatever other bytes it holds, exactly its rows are printed. */
  lemma {:induction false} CleanIsPrinted(v: seq<byte>, stale: bool, pat: seq<byte>)
    requires CarriesClean(v, stale)
    ensures Scanned(v, stale, pat) == Printed(v, BUFSIZE, stale, pat)
    decreases |v|
  {
    if v != [] {
      hide Printed;
      hide ShownRows;
      var w := Window(v);
      NextIsRest(v, stale);
      CleanIsPrinted(v[ShownTo(w, stale)..], StaleAfter(w, stale), pat);
      ScanStep(v, stale, pat);
    }
  }

  // ---------------------------------------------------------------- the exact condition

  /** The first row, with the whole buffer to itself. */
  function FirstRow(v: seq<byte>): seq<byte> {
    v[..RowEnd(v, BUFSIZE)]
  }

  /**
   No row that a carry-down has clipped hits. `formed` says that the first row of `v` is such a row: the
   carried bytes up to their first NUL, older bytes of the buffer behind it, and then the file up to the
   next newline or the end of the buffer.
   */
  ghost predicate Quiet(v: seq<byte>, formed: bool, stale: bool, pat: seq<byte>)
    decreases |v|
  {
    v == [] ||
    var w := Window(v);
    (formed ==> !Hits(FirstRow(v), pat)) && Quiet(NextText(v, stale), Clips(w, stale), StaleAfter(w, stale), pat)
  }

  /** A clean file has no clipped rows. */
  lemma {:induction false} CleanIsQuiet(v: seq<byte>, stale: bool, pat: seq<byte>)
    requires CarriesClean(v, stale)
    ensures Quiet(v, false, stale, pat)
    decreases |v|
  {
    if v != [] {
      var w := Window(v);
      NextIsRest(v, stale);
      CleanIsQuiet(v[ShownTo(w, stale)..], StaleAfter(w, stale), pat);
    }
  }

  /** No line that contains the pattern holds a NUL. */
  ghost predicate MatchesHaveNoNul(s: seq<byte>, pat: seq<byte>) {
    forall l :: l in Expected(s, pat) ==> NUL !in l
  }

  lemma FirstHasNoNul(s: seq<byte>, pat: seq<byte>)
    requires s != []
    ensures var line := s[..LineEnd(s)];
            MatchesHaveNoNul(s, pat) <==>
            (Contains(line, pat) ==> NUL !in line) && MatchesHaveNoNul(AfterLine(s), pat)
  {
    hide Contains;
    hide LineEnd;
    var line, rest := s[..LineEnd(s)], Expected(AfterLine(s), pat);
    assert Expected(s, pat) == Select(line, Contains(line, pat)) + rest;
    hide Expected;
    assert Contains(line, pat) ==> Expected(s, pat)[0] == line;
    assert forall l :: l in rest ==> l in Expected(s, pat);
    assert forall l :: l in Expected(s, pat) ==> l in rest || (l == line && Contains(line, pat));
  }

  /** The same for any rest of the file, also one that starts inside a line. */
  lemma {:induction false} RestHasNoNul(s: seq<byte>, n: nat, pat: seq<byte>)
    requires MatchesHaveNoNul(s, pat) && n <= |s|
    ensures MatchesHaveNoNul(s[n..], pat)
    decreases |s|
  {
    var j := LineEnd(s);
    if n == |s| {
      assert s[n..] == [];
    } else if n <= j {
      RestOfLineHasNoNul(s, n, pat);
    } else {
      hide MatchesHaveNoNul;
      hide Contains;
      FirstHasNoNul(s, pat);
      RestHasNoNul(AfterLine(s), n - j - 1, pat);
      assert s[n..] == AfterLine(s)[n - j - 1..];
    }
  }

  lemma RestOfLineHasNoNul(s: seq<byte>, n: nat, pat: seq<byte>)
    requires MatchesHaveNoNul(s, pat) && n < |s| && n <= LineEnd(s)
    ensures MatchesHaveNoNul(s[n..], pat)
  {
    hide MatchesHaveNoNul;
    hide LineEnd;
    hide Contains;
    var j := LineEnd(s);
    var line, part := s[..j], s[n..][..j - n];
    FirstHasNoNul(s, pat);
    FirstHasNoNul(s[n..], pat);
    RestOfLine(s, n);
    PartOfLine(s, n, j);
    if Contains(part, pat) {
      ContainsInPart(line, n, j, pat);
    }
  }

  lemma PartOfLine(s: seq<byte>, n: nat, j: nat)
    requires n <= j <= |s|
    ensures s[n..][..j - n] == s[..j][n..j]
    ensures NUL !in s[..j] ==> NUL !in s[n..][..j - n]
  {
    var part := s[n..][..j - n];
    assert forall k :: 0 <= k < |part| ==> part[k] == s[..j][n + k];
  }

  /**
   `v` is what the buffer has made of `t`: the same, or with a first row that was clipped at position `n`
   within its first `m` bytes.
   */
  ghost predicate Clipped(v: seq<byte>, t: seq<byte>, formed: bool, m: nat, n: nat) {
    && |v| == |t| && m <= |t| && m < BUFSIZE
    && (forall k :: m <= k < |t| ==> v[k] == t[k])
    && (forall k :: 0 <= k < m ==> v[k] != NEWLINE && t[k] != NEWLINE)
    && if formed then n < m && v[n] == NUL && (forall k :: 0 <= k <= n ==> v[k] == t[k]) else m == 0
  }

  /** One round clips at most the row it carries down. */
  lemma NextIsClipped(v: seq<byte>, stale: bool) returns (m: nat, n: nat)
    requires v != []
    ensures var w := Window(v); Clipped(NextText(v, stale), v[ShownTo(w, stale)..], Clips(w, stale), m, n)
  {
    hide LastRowStart;
    hide FirstNul;
    hide Clipped;
    var w := Window(v);
    if Clips(w, stale) {
      var ls := LastRowStart(w);
      m, n := |w| - ls, FirstNul(w, ls) - ls;
      RestSplits(v, ls, |w|);
      FormedIsClipped(w, ls, v[|w|..], v[ls..]);
    } else {
      m, n := 0, 0;
      NextIsRest(v, stale);
      NothingClipped(v[ShownTo(w, stale)..]);
    }
  }

  lemma NothingClipped(v: seq<byte>)
    ensures Clipped(v, v, false, 0, 0)
  {
  }

  lemma FormedIsClipped(w: seq<byte>, ls: nat, rest: seq<byte>, t: seq<byte>)
    requires 0 < ls < |w| <= BUFSIZE && FirstNul(w, ls) < |w| && t == w[ls..] + rest
    requires forall k :: ls <= k < |w| ==> w[k] != NEWLINE
    ensures Clipped(Formed(w, ls) + rest, t, true, |w| - ls, FirstNul(w, ls) - ls)
  {
    hide FirstNul;
    var v, m, n := Formed(w, ls) + rest, |w| - ls, FirstNul(w, ls) - ls;
    assert forall k :: 0 <= k < m ==> v[k] == FormedByte(w, ls, k) && t[k] == w[ls + k];
    assert forall k :: m <= k < |t| ==> v[k] == rest[k - m] && t[k] == rest[k - m];
  }

  /** The clipped row and the row it was have the same end and the same rest behind them. */
  lemma SameEnds(v: seq<byte>, t: seq<byte>, formed: bool, m: nat, n: nat)
    requires Clipped(v, t, formed, m, n)
    ensures LineEnd(v) == LineEnd(t) >= m && AfterRow(v, BUFSIZE) == AfterRow(t, BUFSIZE)
    ensures forall k :: m <= k <= |v| ==> v[k..] == t[k..]
  {
    LineEndShape(t);
    var j := LineEnd(t);
    assert forall k :: 0 <= k < j ==> t[k] == t[..j][k];
    LineEndIs(v, j);
  }

  /** A line with a NUL does not match, so its rows do not hit. */
  lemma NulLineIsQuiet(t: seq<byte>, n: nat, k: nat, pat: seq<byte>)
    requires MatchesHaveNoNul(t, pat) && n < LineEnd(t) && t[n] == NUL && k <= LineEnd(t)
    ensures !Contains(t[..LineEnd(t)], pat) && pat != [] && !Contains(t[..k], pat)
  {
    hide LineEnd;
    hide MatchesHaveNoNul;
    hide Contains;
    var line := t[..LineEnd(t)];
    assert line[n] == NUL;
    FirstHasNoNul(t, pat);
    EmptyIsContained(line);
    NotInPart(line, 0, k, pat);
    assert line[0..k] == t[..k];
  }

  lemma EmptyIsContained(row: seq<byte>)
    ensures Contains(row, [])
  {
    assert MatchAt(row, [], 0);
  }

  /** Where no row hits, clipping does not change the rows printed. */
  lemma SamePrinted(v: seq<byte>, t: seq<byte>, formed: bool, m: nat, n: nat, stale: bool, pat: seq<byte>)
    requires Clipped(v, t, formed, m, n) && MatchesHaveNoNul(t, pat) && (formed ==> !Hits(FirstRow(v), pat))
    ensures Printed(v, BUFSIZE, stale, pat) == Printed(t, BUFSIZE, stale, pat)
  {
    if formed {
      SameEnds(v, t, formed, m, n);
      NulLineIsQuiet(t, n, RowEnd(t, BUFSIZE), pat);
      hide Contains;
      hide Printed;
      hide LineEnd;
      hide AfterRow;
      PrintedFirst(v, stale, pat);
      PrintedFirst(t, stale, pat);
    } else {
      assert v == t;
    }
  }

  lemma PrintedFirst(s: seq<byte>, stale: bool, pat: seq<byte>)
    requires s != [] && !Hits(FirstRow(s), pat)
    ensures Printed(s, BUFSIZE, stale, pat) ==
            Printed(AfterRow(s, BUFSIZE), NextRoom(s, BUFSIZE, stale), stale && LineEnd(s) < BUFSIZE, pat)
  {
    hide Hits;
  }

  /** The first row is shown in the first round. */
  lemma FirstRowShown(v: seq<byte>, stale: bool, pat: seq<byte>)
    requires v != []
    ensures Shown(FirstRow(v), pat) <= ShownRows(v, 0, ShownTo(Window(v), stale), pat)
  {
    hide LastRowStart;
    hide Shown;
    var w := Window(v);
    var stop := ShownTo(w, stale);
    var e := FirstNewline(v, 0, stop);
    assert CarriesRow(w, stale) ==> v[stop - 1] == w[stop - 1] == NEWLINE;
    LineEndShape(v);
    assert forall k :: 0 <= k < LineEnd(v) ==> v[k] == v[..LineEnd(v)][k];
    assert e == RowEnd(v, BUFSIZE);
    assert v[0..e] == FirstRow(v);
  }

  /** If no clipped row hits, the rows of the file are printed. */
  lemma {:induction false} QuietIsPrinted(v: seq<byte>, t: seq<byte>, formed: bool, m: nat, n: nat, stale: bool,
                                          pat: seq<byte>)
    requires Clipped(v, t, formed, m, n) && MatchesHaveNoNul(t, pat) && Quiet(v, formed, stale, pat)
    ensures Scanned(v, stale, pat) == Printed(t, BUFSIZE, stale, pat)
    decreases |v|
  {
    if v == [] {
      assert t == [];
    } else {
      hide Printed;
      hide ShownRows;
      hide Hits;
      hide MatchesHaveNoNul;
      hide LastRowStart;
      var w := Window(v);
      var k := ShownTo(w, stale);
      SamePrinted(v, t, formed, m, n, stale, pat);
      ScanStep(v, stale, pat);
      ShownBehind(v, t, formed, m, n, stale);
      SameEnds(v, t, formed, m, n);
      RestHasNoNul(t, k, pat);
      var m', n' := NextIsClipped(v, stale);
      QuietIsPrinted(NextText(v, stale), v[k..], Clips(w, stale), m', n', StaleAfter(w, stale), pat);
    }
  }

  /** A round shows at least the row that was carried down before. */
  lemma ShownBehind(v: seq<byte>, t: seq<byte>, formed: bool, m: nat, n: nat, stale: bool)
    requires v != [] && Clipped(v, t, formed, m, n)
    ensures ShownTo(Window(v), stale) >= m
  {
    hide LastRowStart;
    var w := Window(v);
    var ls := LastRowStart(w);
    assert CarriesRow(w, stale) ==> v[ls - 1] == NEWLINE;
  }

  /** If a clipped row hits, a row without the pattern is printed. */
  lemma {:induction false} NoiseIsPrinted(v: seq<byte>, t: seq<byte>, formed: bool, m: nat, n: nat, stale: bool,
                                          pat: seq<byte>) returns (r: seq<byte>)
    requires Clipped(v, t, formed, m, n) && MatchesHaveNoNul(t, pat) && !Quiet(v, formed, stale, pat)
    ensures r in Scanned(v, stale, pat) && !Contains(r, pat)
    decreases |v|
  {
    hide Contains;
    hide Hits;
    hide ShownRows;
    hide MatchesHaveNoNul;
    hide LastRowStart;
    var w := Window(v);
    var k := ShownTo(w, stale);
    SameEnds(v, t, formed, m, n);
    if formed && Hits(FirstRow(v), pat) {
      r := Visible(FirstRow(v));
      FirstRowShown(v, stale, pat);
      NoiseRow(v, t, m, n, pat);
      assert Shown(FirstRow(v), pat) == [r];
      assert ShownRows(v, 0, k, pat)[0] == r;
      InScanned(v, stale, pat, r);
    } else {
      ShownBehind(v, t, formed, m, n, stale);
      RestHasNoNul(t, k, pat);
      var m', n' := NextIsClipped(v, stale);
      r := NoiseIsPrinted(NextText(v, stale), v[k..], Clips(w, stale), m', n', StaleAfter(w, stale), pat);
      InScanned(v, stale, pat, r);
    }
  }

  lemma InScanned(v: seq<byte>, stale: bool, pat: seq<byte>, r: seq<byte>)
    requires v != []
    ensures var w := Window(v);
            r in ShownRows(v, 0, ShownTo(w, stale), pat) || r in Scanned(NextText(v, stale), StaleAfter(w, stale), pat)
            ==> r in Scanned(v, stale, pat)
  {
    hide ShownRows;
    hide LastRowStart;
    var w := Window(v);
    var shown, later := ShownRows(v, 0, ShownTo(w, stale), pat), Scanned(NextText(v, stale), StaleAfter(w, stale), pat);
    assert Scanned(v, stale, pat) == shown + later;
  }

  /** What is visible of a clipped row is a part of a line that does not match. */
  lemma NoiseRow(v: seq<byte>, t: seq<byte>, m: nat, n: nat, pat: seq<byte>)
    requires Clipped(v, t, true, m, n) && MatchesHaveNoNul(t, pat)
    ensures !Contains(Visible(FirstRow(v)), pat)
  {
    hide Contains;
    SameEnds(v, t, true, m, n);
    var row := FirstRow(v);
    assert row[n] == NUL;
    CStringShape(row, 0, |row|);
    var seen := Visible(row);
    assert |seen| <= n;
    assert seen == t[..|seen|];
    NulLineIsQuiet(t, n, |seen|, pat);
  }

  lemma {:induction false} ShownRowsAreVisible(s: seq<byte>, start: nat, stop: nat, pat: seq<byte>)
    requires start <= stop <= |s|
    ensures forall r :: r in ShownRows(s, start, stop, pat) ==> NUL !in r
    decreases stop - start
  {
    hide Shown;
    hide FirstNewline;
    if start < stop {
      var e := FirstNewline(s, start, stop);
      ShownIsVisible(s[start..e], pat);
      if e < stop {
        ShownRowsAreVisible(s, e + 1, stop, pat);
      }
    }
  }

  lemma ShownIsVisible(row: seq<byte>, pat: seq<byte>)
    ensures forall r :: r in Shown(row, pat) ==> NUL !in r
  {
  }

  lemma {:induction false} ScannedIsVisible(v: seq<byte>, stale: bool, pat: seq<byte>)
    ensures forall r :: r in Scanned(v, stale, pat) ==> NUL !in r
    decreases |v|
  {
    if v != [] {
      var w := Window(v);
      ShownRowsAreVisible(v, 0, ShownTo(w, stale), pat);
      ScannedIsVisible(NextText(v, stale), StaleAfter(w, stale), pat);
    }
  }

  lemma {:induction false} IntactHasNoNul(s: seq<byte>, room: nat, stale: bool, pat: seq<byte>)
    requires 1 <= room <= BUFSIZE && Intact(s, room, stale, pat)
    ensures MatchesHaveNoNul(s, pat)
    decreases |s|
  {
    hide Contains;
    if s != [] {
      FirstHasNoNul(s, pat);
      IntactHasNoNul(AfterLine(s), NextRoomByLine(s, room, stale), stale && LineEnd(s) < room, pat);
    }
  }

  /**
   Main result: for every file and pattern, the lines that contain the pattern are printed, in order and
   once each and nothing else, exactly when no such line is torn, cut at a NUL or unsearchable and no
   clipped row hits.
   */
  lemma ScannedIsExpected(text: seq<byte>, stale: bool, pat: seq<byte>)
    ensures Scanned(text, stale, pat) == Expected(text, pat) <==>
            Intact(text, BUFSIZE, stale, pat) && Quiet(text, false, stale, pat)
  {
    hide Scanned;
    hide Expected;
    hide Intact;
    hide Quiet;
    hide Printed;
    hide Contains;
    PrintedIsExpected(text, BUFSIZE, stale, pat);
    ScannedIsVisible(text, stale, pat);
    ExpectedAreLines(text, pat);
    if Intact(text, BUFSIZE, stale, pat) {
      IntactHasNoNul(text, BUFSIZE, stale, pat);
    }
    NothingClipped(text);
    if MatchesHaveNoNul(text, pat) {
      if Quiet(text, false, stale, pat) {
        QuietIsPrinted(text, text, false, 0, 0, stale, pat);
      } else {
        var r := NoiseIsPrinted(text, text, false, 0, 0, stale, pat);
      }
    }
  }
}
