/**
 What grep is meant to print for one file (`Expected`: the lines that contain the pattern) and what
 its 1024-byte sliding buffer makes of it (`Printed`: the rows the buffer cuts the file into), with
 the exact condition under which the two agree.
 */
module GrepSpec {
  import opened Bytes

  const BUFSIZE := 1024

  /** Index of the first newline, or the length. */
  function LineEnd(s: seq<byte>): (j: nat)
    ensures j <= |s|
  {
    if s == [] || s[0] == NEWLINE then 0 else 1 + LineEnd(s[1..])
  }

  lemma {:induction false} LineEndShape(s: seq<byte>)
    ensures NEWLINE !in s[..LineEnd(s)]
    ensures LineEnd(s) < |s| ==> s[LineEnd(s)] == NEWLINE
  {
    if s != [] && s[0] != NEWLINE {
      LineEndShape(s[1..]);
      assert s[..LineEnd(s)] == [s[0]] + s[1..][..LineEnd(s) - 1];
    }
  }

  lemma LineEndIs(s: seq<byte>, j: nat)
    requires j <= |s| && NEWLINE !in s[..j] && (j < |s| ==> s[j] == NEWLINE)
    ensures LineEnd(s) == j
  {
    LineEndShape(s);
    var k := LineEnd(s);
    assert forall i :: 0 <= i < j ==> s[i] == s[..j][i];
    assert forall i :: 0 <= i < k ==> s[i] == s[..k][i];
  }

  /** What follows the first line and its newline. */
  function AfterLine(s: seq<byte>): (r: seq<byte>)
    ensures s != [] ==> |r| < |s|
  {
    if LineEnd(s) < |s| then s[LineEnd(s) + 1..] else []
  }

  function Lines(s: seq<byte>): seq<seq<byte>>
    decreases |s|
  {
    if s == [] then [] else [s[..LineEnd(s)]] + Lines(AfterLine(s))
  }

  ghost predicate Contains(row: seq<byte>, pat: seq<byte>) {
    exists i :: 0 <= i <= |row| - |pat| && MatchAt(row, pat, i)
  }

  predicate MatchAt(row: seq<byte>, pat: seq<byte>, i: nat)
    requires i + |pat| <= |row|
  {
    row[i..i + |pat|] == pat
  }

  /** The search compares the pattern's first byte as a signed char, and does not look for an empty pattern. */
  predicate Searchable(pat: seq<byte>) {
    pat != [] && pat[0] < 0x80
  }

  /** `row` if it is selected, as a one- or zero-element list. */
  ghost function Select(row: seq<byte>, selected: bool): seq<seq<byte>> {
    if selected then [row] else []
  }

  ghost function Expected(s: seq<byte>, pat: seq<byte>): seq<seq<byte>>
    decreases |s|
  {
    if s == [] then [] else
      var line := s[..LineEnd(s)];
      Select(line, Contains(line, pat)) + Expected(AfterLine(s), pat)
  }

  // ---------------------------------------------------------------- rows cut by the buffer

  /**
   End of the first row. `room` is the number of bytes that fit before the buffer is cut: a row ends
   at its newline, at the end of the file, or where the room runs out.
   */
  function RowEnd(s: seq<byte>, room: nat): (j: nat)
    ensures j <= |s| && j <= room
  {
    Min(LineEnd(s), room)
  }

  function AfterRow(s: seq<byte>, room: nat): (r: seq<byte>)
    requires room >= 1
    ensures s != [] ==> |r| < |s|
  {
    if LineEnd(s) < room then AfterLine(s) else s[room..]
  }

  /**
   `stale` says that the byte behind the buffer still holds a newline from before the call. As long
   as it does, the buffer is filled in steps of 1024 bytes of the file and the first step that does
   not end in a newline is cut there; afterwards every row has the whole buffer to itself.
   */
  function NextRoom(s: seq<byte>, room: nat, stale: bool): (r: nat)
    ensures 1 <= room <= BUFSIZE ==> 1 <= r <= BUFSIZE
  {
    if stale && LineEnd(s) < room && LineEnd(s) + 1 != room then room - (LineEnd(s) + 1) else BUFSIZE
  }

  /**
   Whether the search stops in a row. The bytes of a row are arbitrary: an embedded NUL only fails to
   match, except that an empty pattern's own terminator matches it.
   */
  ghost predicate Hits(row: seq<byte>, pat: seq<byte>) {
    if pat == [] then NUL in row else Searchable(pat) && Contains(row, pat)
  }

  /** What reaches the screen of a row: it is printed as a C string. */
  ghost function Visible(row: seq<byte>): (v: seq<byte>)
    ensures |v| <= |row| && NUL !in v && (v == row <==> NUL !in row)
  {
    CStringShape(row, 0, |row|);
    if NUL !in row then CStringIsUnique(row, 0, |row|, row); CString(row, 0, |row|) else CString(row, 0, |row|)
  }

  ghost function Shown(row: seq<byte>, pat: seq<byte>): seq<seq<byte>> {
    Select(Visible(row), Hits(row, pat))
  }

  ghost function Printed(s: seq<byte>, room: nat, stale: bool, pat: seq<byte>): seq<seq<byte>>
    requires 1 <= room <= BUFSIZE
    decreases |s|
  {
    if s == [] then [] else
      Shown(s[..RowEnd(s, room)], pat)
      + Printed(AfterRow(s, room), NextRoom(s, room, stale), stale && LineEnd(s) < room, pat)
  }

  // ---------------------------------------------------------------- when both agree

  ghost function NextRoomByLine(s: seq<byte>, room: nat, stale: bool): (r: nat)
    ensures 1 <= room <= BUFSIZE ==> 1 <= r <= BUFSIZE
  {
    if LineEnd(s) < room then NextRoom(s, room, stale) else BUFSIZE
  }

  /** No line that contains the pattern is torn or holds a NUL, and such a line can be found at all. */
  ghost predicate Intact(s: seq<byte>, room: nat, stale: bool, pat: seq<byte>)
    requires 1 <= room <= BUFSIZE
    decreases |s|
  {
    s != [] ==>
      && (Contains(s[..LineEnd(s)], pat) ==> Searchable(pat) && LineEnd(s) <= room && NUL !in s[..LineEnd(s)])
      && Intact(AfterLine(s), NextRoomByLine(s, room, stale), stale && LineEnd(s) < room, pat)
  }

  lemma ContainsInPart(row: seq<byte>, lo: nat, hi: nat, pat: seq<byte>)
    requires lo <= hi <= |row| && Contains(row[lo..hi], pat)
    ensures Contains(row, pat)
  {
    var i :| 0 <= i <= hi - lo - |pat| && MatchAt(row[lo..hi], pat, i);
    var k, n := lo + i, |pat|;
    SliceOfSlice(row, lo, hi, i, i + n);
    assert MatchAt(row, pat, k);
  }

  lemma NotInPart(row: seq<byte>, lo: nat, hi: nat, pat: seq<byte>)
    requires lo <= hi <= |row| && !Contains(row, pat)
    ensures !Contains(row[lo..hi], pat)
  {
    if Contains(row[lo..hi], pat) {
      ContainsInPart(row, lo, hi, pat);
    }
  }

  /** A printed row never exceeds the buffer and never holds a NUL. */
  lemma {:induction false} RowsFit(s: seq<byte>, room: nat, stale: bool, pat: seq<byte>)
    requires 1 <= room <= BUFSIZE
    ensures forall r :: r in Printed(s, room, stale, pat) ==> |r| <= BUFSIZE && NUL !in r
    decreases |s|
  {
    if s != [] {
      RowsFit(AfterRow(s, room), NextRoom(s, room, stale), stale && LineEnd(s) < room, pat);
    }
  }

  /** Without a stale newline only length and NULs of the lines that contain the pattern matter. */
  lemma {:induction false} IntactWhenShort(s: seq<byte>, pat: seq<byte>)
    ensures Intact(s, BUFSIZE, false, pat) <==>
            forall l :: l in Expected(s, pat) ==> Searchable(pat) && |l| <= BUFSIZE && NUL !in l
    decreases |s|
  {
    if s != [] {
      IntactWhenShort(AfterLine(s), pat);
      var line := s[..LineEnd(s)];
      var rest := Expected(AfterLine(s), pat);
      assert Contains(line, pat) ==> Expected(s, pat) == [line] + rest;
      assert !Contains(line, pat) ==> Expected(s, pat) == rest;
      assert Contains(line, pat) ==> line in Expected(s, pat);
      assert forall l :: l in Expected(s, pat) <==> (Contains(line, pat) && l == line) || l in rest;
    }
  }

  lemma {:induction false} NothingWithoutSearch(s: seq<byte>, room: nat, stale: bool, pat: seq<byte>)
    requires 1 <= room <= BUFSIZE && !Searchable(pat) && (pat == [] ==> NUL !in s)
    ensures Printed(s, room, stale, pat) == []
    decreases |s|
  {
    if s != [] {
      NothingWithoutSearch(AfterRow(s, room), NextRoom(s, room, stale), stale && LineEnd(s) < room, pat);
    }
  }

  /** A cut just before the newline costs nothing: the empty remainder is not printed. */
  lemma CutBeforeNewline(s: seq<byte>, room: nat, stale: bool, pat: seq<byte>)
    requires 1 <= room <= BUFSIZE && LineEnd(s) == room && pat != []
    ensures Printed(s[room..], BUFSIZE, false, pat) == Printed(AfterLine(s), BUFSIZE, false, pat)
  {
    var rest := s[room..];
    LineEndShape(s);
    LineEndIs(rest, 0);
    assert rest != [] ==> AfterRow(rest, BUFSIZE) == AfterLine(s);
    assert !Contains([], pat);
  }

  /** The printed pieces of one line: cut after `room` bytes, then after every 1024. */
  ghost function Cut(line: seq<byte>, room: nat, pat: seq<byte>): seq<seq<byte>>
    requires 1 <= room <= BUFSIZE
    decreases |line|
  {
    if |line| <= room then Shown(line, pat) else Shown(line[..room], pat) + Cut(line[room..], BUFSIZE, pat)
  }

  lemma {:induction false} CutOfQuietLine(line: seq<byte>, room: nat, pat: seq<byte>)
    requires 1 <= room <= BUFSIZE && pat != [] && !Contains(line, pat)
    ensures Cut(line, room, pat) == []
    decreases |line|
  {
    if |line| > room {
      NotInPart(line, 0, room, pat);
      NotInPart(line, room, |line|, pat);
      assert line[0..room] == line[..room] && line[room..|line|] == line[room..];
      CutOfQuietLine(line[room..], BUFSIZE, pat);
    }
  }

  lemma {:induction false} PiecesAreShorter(line: seq<byte>, room: nat, pat: seq<byte>)
    requires 1 <= room <= BUFSIZE
    ensures forall r :: r in Cut(line, room, pat) ==> |r| <= |line| && (|line| > room ==> |r| < |line|)
    decreases |line|
  {
    if |line| > room {
      PiecesAreShorter(line[room..], BUFSIZE, pat);
    }
  }

  lemma RestOfLine(s: seq<byte>, room: nat)
    requires room <= LineEnd(s)
    ensures LineEnd(s[room..]) == LineEnd(s) - room && AfterLine(s[room..]) == AfterLine(s)
  {
    LineEndShape(s);
    assert forall i :: 0 <= i < LineEnd(s) ==> s[i] == s[..LineEnd(s)][i];
    LineEndIs(s[room..], LineEnd(s) - room);
  }

  lemma CutUnfolds(s: seq<byte>, room: nat, pat: seq<byte>)
    requires 1 <= room <= BUFSIZE && room < LineEnd(s)
    ensures Cut(s[..LineEnd(s)], room, pat) ==
            Shown(s[..room], pat) + Cut(s[room..][..LineEnd(s) - room], BUFSIZE, pat)
  {
    var j := LineEnd(s);
    assert s[room..][..j - room] == s[..j][room..];
    assert s[..j][..room] == s[..room];
  }

  /** The rows of a file are the pieces of its first line followed by the rows of the rest. */
  lemma {:induction false} PrintedByLine(s: seq<byte>, room: nat, stale: bool, pat: seq<byte>)
    requires 1 <= room <= BUFSIZE && s != [] && Searchable(pat)
    requires room <= LineEnd(s) || !stale
    ensures Printed(s, room, stale, pat) == Cut(s[..LineEnd(s)], room, pat) + Printed(AfterLine(s), BUFSIZE, false, pat)
    decreases |s|
  {
    hide Printed;
    hide Cut;
    var j := LineEnd(s);
    if j <= room {
      PrintedUncut(s, room, stale, pat);
    } else {
      RestOfLine(s, room);
      PrintedByLine(s[room..], BUFSIZE, false, pat);
      PrintedUnfolds(s, room, stale, pat);
      CutUnfolds(s, room, pat);
      Associative(Shown(s[..room], pat), Cut(s[room..][..j - room], BUFSIZE, pat),
                  Printed(AfterLine(s), BUFSIZE, false, pat));
    }
  }

  lemma PrintedUncut(s: seq<byte>, room: nat, stale: bool, pat: seq<byte>)
    requires 1 <= room <= BUFSIZE && s != [] && Searchable(pat) && LineEnd(s) <= room
    requires room == LineEnd(s) || !stale
    ensures Printed(s, room, stale, pat) == Cut(s[..LineEnd(s)], room, pat) + Printed(AfterLine(s), BUFSIZE, false, pat)
  {
    if LineEnd(s) < room {
      assert AfterRow(s, room) == AfterLine(s);
    } else {
      CutBeforeNewline(s, room, stale, pat);
    }
  }

  lemma PrintedUnfolds(s: seq<byte>, room: nat, stale: bool, pat: seq<byte>)
    requires 1 <= room <= BUFSIZE && room < LineEnd(s) && Searchable(pat)
    ensures Printed(s, room, stale, pat) ==
            Shown(s[..room], pat) + Printed(s[room..], BUFSIZE, false, pat)
  {
    assert RowEnd(s, room) == room;
  }

  /** A torn line with the pattern always shows: its pieces are shorter, and no later row replaces it. */
  lemma TornLineShows(s: seq<byte>, room: nat, stale: bool, pat: seq<byte>)
    requires 1 <= room <= BUFSIZE && s != [] && Searchable(pat)
    requires LineEnd(s) > room && Contains(s[..LineEnd(s)], pat)
    requires Intact(AfterLine(s), BUFSIZE, false, pat) ==>
               Printed(AfterLine(s), BUFSIZE, false, pat) == Expected(AfterLine(s), pat)
    ensures Printed(s, room, stale, pat) != Expected(s, pat)
  {
    var line, rest := s[..LineEnd(s)], Expected(AfterLine(s), pat);
    var pieces, rows := Cut(line, room, pat), Printed(AfterLine(s), BUFSIZE, false, pat);
    PrintedByLine(s, room, stale, pat);
    PiecesAreShorter(line, room, pat);
    assert Expected(s, pat) == [line] + rest;
    RowsFit(AfterLine(s), BUFSIZE, false, pat);
    IntactWhenShort(AfterLine(s), pat);
    hide Printed;
    hide Expected;
    hide Cut;
    hide Intact;
    hide Contains;
    hide LineEnd;
    PiecesShow(line, pieces, rows, rest, pat);
  }

  /** Shorter pieces in front show; without pieces, the later rows would have to be longer than they are. */
  lemma PiecesShow(line: seq<byte>, pieces: seq<seq<byte>>, rows: seq<seq<byte>>, rest: seq<seq<byte>>, pat: seq<byte>)
    requires forall r :: r in pieces ==> |r| < |line|
    requires forall r :: r in rows ==> |r| <= BUFSIZE && NUL !in r
    requires (forall l :: l in rest ==> Searchable(pat) && |l| <= BUFSIZE && NUL !in l) ==> rows == rest
    requires Searchable(pat)
    ensures pieces + rows != [line] + rest
  {
    if pieces != [] {
      assert pieces[0] in pieces;
      assert (pieces + rows)[0] == pieces[0] && ([line] + rest)[0] == line;
    } else {
      assert pieces + rows == rows;
      assert forall l :: l in rest ==> l in [line] + rest;
      assert |[line] + rest| == |rest| + 1;
    }
  }

  /**
   Main result about the buffer: the printed rows are the lines that contain the pattern, in order and
   once each, exactly when no such line is torn (and the pattern can be searched for).
   */
  lemma {:induction false} PrintedIsExpected(s: seq<byte>, room: nat, stale: bool, pat: seq<byte>)
    requires 1 <= room <= BUFSIZE
    ensures Printed(s, room, stale, pat) == Expected(s, pat) <==> Intact(s, room, stale, pat)
    decreases |s|
  {
    if s == [] {
    } else if pat == [] {
      EmptyPattern(s, room, stale);
    } else if !Searchable(pat) {
      NothingWithoutSearch(s, room, stale, pat);
      PrintedIsExpected(AfterLine(s), NextRoomByLine(s, room, stale), stale && LineEnd(s) < room, pat);
      NothingWithoutSearch(AfterLine(s), NextRoomByLine(s, room, stale), stale && LineEnd(s) < room, pat);
    } else if LineEnd(s) < room {
      PrintedIsExpected(AfterLine(s), NextRoom(s, room, stale), stale, pat);
      WholeLine(s, room, stale, pat);
    } else {
      PrintedIsExpected(AfterLine(s), BUFSIZE, false, pat);
      CutLine(s, room, stale, pat);
    }
  }

  /** An empty pattern is expected on every line but finds at most NULs, which are never printed. */
  lemma EmptyPattern(s: seq<byte>, room: nat, stale: bool)
    requires 1 <= room <= BUFSIZE && s != []
    ensures Printed(s, room, stale, []) != Expected(s, []) && !Intact(s, room, stale, [])
  {
    var line := s[..LineEnd(s)];
    assert MatchAt(line, [], 0);
    assert line in Expected(s, []);
    if NUL !in s {
      NothingWithoutSearch(s, room, stale, []);
    } else {
      var l := LineWithNul(s);
      RowsFit(s, room, stale, []);
    }
  }

  lemma {:induction false} LineWithNul(s: seq<byte>) returns (l: seq<byte>)
    requires NUL in s
    ensures l in Expected(s, []) && NUL in l
    decreases |s|
  {
    var line := s[..LineEnd(s)];
    assert MatchAt(line, [], 0);
    if NUL in line {
      l := line;
    } else {
      LineEndShape(s);
      assert s == line + (if LineEnd(s) < |s| then [NEWLINE] else []) + AfterLine(s);
      l := LineWithNul(AfterLine(s));
    }
  }

  lemma WholeLine(s: seq<byte>, room: nat, stale: bool, pat: seq<byte>)
    requires 1 <= room <= BUFSIZE && s != [] && Searchable(pat) && LineEnd(s) < room
    requires Printed(AfterLine(s), NextRoom(s, room, stale), stale, pat) == Expected(AfterLine(s), pat) <==>
             Intact(AfterLine(s), NextRoom(s, room, stale), stale, pat)
    ensures Printed(s, room, stale, pat) == Expected(s, pat) <==> Intact(s, room, stale, pat)
  {
    var line := s[..LineEnd(s)];
    var rows, rest := Printed(AfterLine(s), NextRoom(s, room, stale), stale, pat), Expected(AfterLine(s), pat);
    if Contains(line, pat) && NUL in line {
      assert Printed(s, room, stale, pat)[0] == Visible(line) && Expected(s, pat)[0] == line;
    } else {
      SamePrefix(Select(line, Contains(line, pat)), rows, rest);
    }
  }

  lemma CutLine(s: seq<byte>, room: nat, stale: bool, pat: seq<byte>)
    requires 1 <= room <= BUFSIZE && s != [] && Searchable(pat) && room <= LineEnd(s)
    requires Printed(AfterLine(s), BUFSIZE, false, pat) == Expected(AfterLine(s), pat) <==>
             Intact(AfterLine(s), BUFSIZE, false, pat)
    ensures Printed(s, room, stale, pat) == Expected(s, pat) <==> Intact(s, room, stale, pat)
  {
    var line := s[..LineEnd(s)];
    var rows, rest := Printed(AfterLine(s), BUFSIZE, false, pat), Expected(AfterLine(s), pat);
    if Contains(line, pat) && LineEnd(s) > room {
      TornLineShows(s, room, stale, pat);
    } else {
      var shown := Shown(line, pat);
      assert Printed(s, room, stale, pat) == shown + rows by {
        PrintedByLine(s, room, stale, pat);
        if !Contains(line, pat) {
          CutOfQuietLine(line, room, pat);
        }
      }
      if Contains(line, pat) && NUL in line {
        assert Printed(s, room, stale, pat)[0] == Visible(line) && Expected(s, pat)[0] == line;
      } else {
        SamePrefix(shown, rows, rest);
      }
    }
  }

  lemma SamePrefix<T>(p: seq<T>, a: seq<T>, b: seq<T>)
    ensures p + a == p + b <==> a == b
  {
    assert (p + a)[|p|..] == a && (p + b)[|p|..] == b;
  }

  /** With a clean buffer the condition is about the file: matching lines of at most 1024 bytes without NUL. */
  lemma CleanBufferIsExpected(s: seq<byte>, pat: seq<byte>)
    ensures Printed(s, BUFSIZE, false, pat) == Expected(s, pat) <==>
            forall l :: l in Expected(s, pat) ==> Searchable(pat) && |l| <= BUFSIZE && NUL !in l
  {
    PrintedIsExpected(s, BUFSIZE, false, pat);
    IntactWhenShort(s, pat);
  }

  /** The lines, each with a newline behind it. */
  function Joined(lines: seq<seq<byte>>): seq<byte> {
    if lines == [] then [] else lines[0] + [10] + Joined(lines[1..])
  }

  /** The text, with a newline at the end if it is not empty. */
  function Ended(s: seq<byte>): seq<byte> {
    if s == [] || s[|s| - 1] == 10 then s else s + [10]
  }

  lemma EndedByLine(s: seq<byte>)
    requires s != []
    ensures Ended(s) == s[..LineEnd(s)] + [10] + Ended(AfterLine(s)) && 10 !in s[..LineEnd(s)]
  {
    LineEndShape(s);
    hide LineEnd;
    var j, rest := LineEnd(s), AfterLine(s);
    if j < |s| {
      assert s == s[..j] + [10] + rest;
      assert rest != [] ==> s[|s| - 1] == rest[|rest| - 1];
    } else {
      assert s[..j] == s && s[|s| - 1] in s[..j];
    }
  }

  /** The lines of a file are its text cut at the newlines; a missing newline at the end does not matter. */
  lemma {:induction false} LinesJoin(s: seq<byte>)
    ensures Joined(Lines(s)) == Ended(s) && forall l :: l in Lines(s) ==> 10 !in l
    decreases |s|
  {
    if s != [] {
      var line, rest := s[..LineEnd(s)], AfterLine(s);
      assert Lines(s) == [line] + Lines(rest);
      EndedByLine(s);
      LinesJoin(rest);
      hide Lines;
      hide Ended;
      hide LineEnd;
      assert Lines(s)[0] == line && Lines(s)[1..] == Lines(rest);
    }
  }

  /** `Expected` keeps the matching lines of the file, and only those. */
  lemma {:induction false} ExpectedAreLines(s: seq<byte>, pat: seq<byte>)
    ensures forall l :: l in Expected(s, pat) <==> l in Lines(s) && Contains(l, pat)
    decreases |s|
  {
    if s != [] {
      ExpectedAreLines(AfterLine(s), pat);
    }
  }

  /** The line that holds both offset `room - 1` and offset `room`. */
  ghost function LineAcross(s: seq<byte>, room: nat): seq<byte>
    requires 1 <= room < |s| && s[room - 1] != NEWLINE && s[room] != NEWLINE
    decreases |s|
  {
    LineEndShape(s);
    var j := LineEnd(s);
    if j < room then assert j + 1 < room; LineAcross(AfterLine(s), room - (j + 1)) else s[..j]
  }

  /**
   The uninitialised byte behind the buffer matters: if it holds a newline, a matching line across
   offset 1024 is torn, whatever its length.
   */
  lemma {:induction false} StaleNewlineTears(s: seq<byte>, room: nat, pat: seq<byte>)
    requires 1 <= room <= BUFSIZE && room < |s| && s[room - 1] != NEWLINE && s[room] != NEWLINE
    requires Contains(LineAcross(s, room), pat)
    ensures Printed(s, room, true, pat) != Expected(s, pat)
    decreases |s|
  {
    StaleNotIntact(s, room, pat);
    PrintedIsExpected(s, room, true, pat);
  }

  lemma {:induction false} StaleNotIntact(s: seq<byte>, room: nat, pat: seq<byte>)
    requires 1 <= room <= BUFSIZE && room < |s| && s[room - 1] != NEWLINE && s[room] != NEWLINE
    requires Contains(LineAcross(s, room), pat)
    ensures !Intact(s, room, true, pat)
    decreases |s|
  {
    LineEndShape(s);
    var j := LineEnd(s);
    if j < room {
      StaleNotIntact(AfterLine(s), room - (j + 1), pat);
    } else {
      assert j > room;
    }
  }
}
