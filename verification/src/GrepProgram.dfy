/** The grep program: one file, and every file the directory lists. */
module GrepProgram {
  import opened Bytes
  import opened CStrings
  import opened FileSystem
  import opened Descriptors
  import opened Images
  import opened GrepSpec
  import opened GrepScan
  import opened GrepMachine
  import opened Grep

  /** What reading the entry called `name` yields: a file its contents, the clock nothing. */
  ghost function FileText(img: Image, name: seq<byte>): (text: seq<byte>)
    requires WellFormed(img) && Listed(img, name)
  {
    var d := Entry(img, IndexOf(img, name));
    assert EntryWellFormed(img, IndexOf(img, name));
    if d.fileType == TYPE_FILE then Contents(img, d.inode) else []
  }

  /** The entry is a file or the clock. */
  ghost predicate Streams(img: Image, name: seq<byte>)
    requires WellFormed(img) && Listed(img, name)
  {
    Entry(img, IndexOf(img, name)).fileType in {TYPE_RTC, TYPE_FILE}
  }

  /** Descriptor `f` has delivered the first `pos` bytes of `text`. */
  ghost predicate Reading(img: Image, f: Fd, text: seq<byte>, pos: nat) {
    && f.flags != 0 && pos <= |text|
    && match f.ops
       case RtcOps => text == []
       case FileOps => FdOk(img, f) && text == Contents(img, f.inode) && pos == f.pos
       case _ => false
  }

  lemma OpenedReads(img: Image, name: seq<byte>)
    requires WellFormed(img) && Listed(img, name) && Streams(img, name)
    ensures Reading(img, Opened(Entry(img, IndexOf(img, name))), FileText(img, name), 0)
  {
    assert EntryWellFormed(img, IndexOf(img, name));
  }

  /** One read behind the kept bytes. */
  method Refill(pcb: Pcb, fd: int, data: array<byte>, last: nat, ghost text: seq<byte>, ghost pos: nat)
    returns (cnt: nat)
    requires pcb.Valid() && 2 <= fd < FD_COUNT && Reading(pcb.img, pcb.fds[fd], text, pos)
    requires data.Length == BUFSIZE + 1 && last < BUFSIZE
    modifies pcb.fds, data
    ensures pcb.Valid() && pos + cnt <= |text| && Reading(pcb.img, pcb.fds[fd], text, pos + cnt)
    ensures forall k :: 0 <= k < FD_COUNT && k != fd ==> pcb.fds[k] == old(pcb.fds[k])
    ensures cnt == |Slice(text, pos, BUFSIZE - last)| <= BUFSIZE - last
    ensures data[..] == Refilled(old(data[..]), last, Slice(text, pos, BUFSIZE - last))
  {
    hide Contents;
    hide Readable;
    hide WellFormed;
    ghost var before, f := data[..], pcb.fds[fd];
    var r := pcb.Read(fd, data, last, BUFSIZE - last, []);
    ghost var got := Slice(text, pos, BUFSIZE - last);
    assert Delivered(pcb.img, f, BUFSIZE - last, []) == Got(got);
    assert r == |got| && data[last..last + r] == got;
    assert data[..] == data[..last] + data[last..last + r] + data[last + r..];
    return r;
  }

  /** All passes over an opened descriptor, whatever bytes the file and the buffer hold. */
  method GrepOpen(pcb: Pcb, fd: int, s: seq<byte>, n: nat, data: array<byte>, ghost text: seq<byte>)
    returns (hits: seq<seq<byte>>)
    requires pcb.Valid() && 2 <= fd < FD_COUNT && Reading(pcb.img, pcb.fds[fd], text, 0)
    requires data.Length == BUFSIZE + 1 && Pattern(s, n)
    modifies pcb.fds, data
    ensures pcb.Valid() && pcb.fds[fd].flags != 0
    ensures forall k :: 0 <= k < FD_COUNT && k != fd ==> pcb.fds[k] == old(pcb.fds[k])
    ensures FileResult(hits, data[..]) == GrepFile(text, old(data[..]), s[..n])
  {
    hide PassFrom;
    hide GrepFrom;
    hide Reading;
    hide WellFormed;
    hide TableOk;
    hide Refilled;
    ghost var pos, goal := 0, GrepFile(text, data[..], s[..n]);
    var last: nat := 0;
    hits := [];
    while true
      invariant pos <= |text| && last < BUFSIZE
      invariant pcb.Valid() && Reading(pcb.img, pcb.fds[fd], text, pos)
      invariant forall k :: 0 <= k < FD_COUNT && k != fd ==> pcb.fds[k] == old(pcb.fds[k])
      invariant var r := GrepFrom(text, pos, data[..], last, s[..n]);
                goal == r.(hits := hits + r.hits)
      decreases |text| - pos
    {
      ghost var before := hits;
      GrepUnfolds(text, pos, data[..], last, s[..n]);
      var cnt := Refill(pcb, fd, data, last, text, pos);
      var rows;
      rows, last := Pass(data, last + cnt, cnt, s, n);
      hits := hits + rows;
      pos := pos + cnt;
      if cnt == 0 {
        StillOpen(pcb.img, pcb.fds[fd], text, pos);
        return;
      }
      Associative(before, rows, GrepFrom(text, pos, data[..], last, s[..n]).hits);
    }
  }

  lemma StillOpen(img: Image, f: Fd, text: seq<byte>, pos: nat)
    requires Reading(img, f, text, pos)
    ensures f.flags != 0
  {
  }

  /**
   `do_one_file`. When the file can be opened, rows printed and buffer left are those of `GrepFile`,
   the descriptor is free again and no other descriptor has changed.
   */
  method DoOneFile(pcb: Pcb, s: seq<byte>, fname: seq<byte>, data: array<byte>)
    returns (code: int, hits: seq<seq<byte>>)
    requires pcb.Valid() && data.Length == BUFSIZE + 1
    requires Terminated(s, 0) && Terminated(fname, 0)
    requires Listed(pcb.img, AsString(fname)) ==> Streams(pcb.img, AsString(fname))
    modifies pcb.fds, data
    ensures pcb.Valid()
    ensures code == 0 <==> LowestFree(old(pcb.fds[..]), 2) < FD_COUNT && Listed(pcb.img, AsString(fname))
    ensures code != 0 ==> code == -1 && hits == [] && pcb.fds[..] == old(pcb.fds[..]) && data[..] == old(data[..])
    ensures code == 0 ==>
              FileResult(hits, data[..]) == GrepFile(FileText(pcb.img, AsString(fname)), old(data[..]), AsString(s))
    ensures code == 0 ==>
              var fd := LowestFree(old(pcb.fds[..]), 2);
              pcb.fds[fd].flags == 0 && forall k :: 0 <= k < FD_COUNT && k != fd ==> pcb.fds[k] == old(pcb.fds[k])
  {
    hide GrepFile;
    hide Contents;
    hide Readable;
    hide WellFormed;
    var n := Strlen(s, 0);
    assert AsString(s) == s[..n] by { CStringIsUnique(s, 0, |s|, s[..n]); }
    ghost var table := pcb.fds[..];
    var fd := pcb.Open(fname);
    if fd == -1 {
      return -1, [];
    }
    OpenedReads(pcb.img, AsString(fname));
    hits := GrepOpen(pcb, fd, s, n, data, FileText(pcb.img, AsString(fname)));
    var closed := pcb.Close(fd);
    if closed == -1 {
      return -1, [];
    }
    code := 0;
  }

  // ---------------------------------------------------------------- every file of the directory

  const DOT: byte := 46

  /** One printed line: the file it is from, and the line. */
  datatype Line = Line(file: seq<byte>, text: seq<byte>)

  ghost function Tagged(file: seq<byte>, rows: seq<seq<byte>>): (r: seq<Line>)
    ensures |r| == |rows| && forall i :: 0 <= i < |r| ==> r[i] == Line(file, rows[i])
  {
    seq(|rows|, i requires 0 <= i < |rows| => Line(file, rows[i]))
  }

  /** Names that start with a dot are skipped. */
  predicate Dotted(name: seq<byte>) {
    name != [] && name[0] == DOT
  }

  /** The text of entry `i`. */
  ghost function TextOf(img: Image, i: nat): seq<byte>
    requires WellFormed(img) && i < NumDirs(img)
  {
    NamesAnEntry(img, i);
    FileText(img, EntryName(img, i))
  }

  /** Lines printed so far and the buffer all calls share. */
  datatype Scan = Scan(out: seq<Line>, buf: Buffer)

  /** What entry `i` prints when its turn comes with buffer `b`, and the buffer it leaves. */
  ghost function Visit(img: Image, i: nat, b: Buffer, pat: seq<byte>): (r: Scan)
    requires WellFormed(img) && i < NumDirs(img)
    ensures r.buf[BUFSIZE] == NUL || r.buf[BUFSIZE] == b[BUFSIZE]
  {
    if Dotted(EntryName(img, i)) then Scan([], b) else
      var r := GrepFile(TextOf(img, i), b, pat);
      Scan(Tagged(EntryName(img, i), r.hits), r.buf)
  }

  /** The first `n` entries in directory order, from the buffer found at the start. */
  ghost function Report(img: Image, n: nat, b: Buffer, pat: seq<byte>): (r: Scan)
    requires WellFormed(img) && n <= NumDirs(img)
    ensures r.buf[BUFSIZE] == NUL || r.buf[BUFSIZE] == b[BUFSIZE]
  {
    if n == 0 then Scan([], b) else
      var p := Report(img, n - 1, b, pat);
      var r := Visit(img, n - 1, p.buf, pat);
      Scan(p.out + r.out, r.buf)
  }

  /** What entry `i` prints in the run over the directory. */
  ghost function Chunk(img: Image, i: nat, b: Buffer, pat: seq<byte>): seq<Line>
    requires WellFormed(img) && i < NumDirs(img)
  {
    Visit(img, i, Report(img, i, b, pat).buf, pat).out
  }

  /** What entry `i` is meant to print: its whole lines that contain the pattern. */
  ghost function WantedChunk(img: Image, i: nat, pat: seq<byte>): seq<Line>
    requires WellFormed(img) && i < NumDirs(img)
  {
    if Dotted(EntryName(img, i)) then [] else Tagged(EntryName(img, i), Expected(TextOf(img, i), pat))
  }

  ghost function Wanted(img: Image, n: nat, pat: seq<byte>): seq<Line>
    requires WellFormed(img) && n <= NumDirs(img)
  {
    if n == 0 then [] else Wanted(img, n - 1, pat) + WantedChunk(img, n - 1, pat)
  }

  /** The buffer that entry `i` finds. */
  ghost function Found(img: Image, i: nat, b: Buffer, pat: seq<byte>): (r: Buffer)
    requires WellFormed(img) && i < NumDirs(img)
    ensures Stale(r) ==> Stale(b)
  {
    Report(img, i, b, pat).buf
  }

  /** No matching line of entry `i` is torn, cut or unsearchable, and no clipped row hits. */
  ghost predicate EntryRight(img: Image, i: nat, found: Buffer, pat: seq<byte>)
    requires WellFormed(img) && i < NumDirs(img)
  {
    Dotted(EntryName(img, i)) ||
    (Intact(TextOf(img, i), BUFSIZE, Stale(found), pat) && NoNoise(TextOf(img, i), found, pat))
  }

  lemma SameTags(name: seq<byte>, a: seq<seq<byte>>, b: seq<seq<byte>>)
    ensures Tagged(name, a) == Tagged(name, b) <==> a == b
  {
    if Tagged(name, a) == Tagged(name, b) {
      assert |a| == |Tagged(name, a)| == |b|;
      assert forall k :: 0 <= k < |a| ==> a[k] == Tagged(name, a)[k].text == Tagged(name, b)[k].text == b[k];
    }
  }

  /** For every image, entry, pattern and buffer: when the entry prints what it is meant to. */
  lemma ChunkIsWanted(img: Image, i: nat, b: Buffer, pat: seq<byte>)
    requires WellFormed(img) && i < NumDirs(img)
    ensures Chunk(img, i, b, pat) == WantedChunk(img, i, pat) <==> EntryRight(img, i, Found(img, i, b, pat), pat)
  {
    hide WellFormed;
    hide TextOf;
    hide Expected;
    hide EntryName;
    hide Tagged;
    hide GrepFile;
    hide Intact;
    hide NoNoise;
    if !Dotted(EntryName(img, i)) {
      var text, found := TextOf(img, i), Found(img, i, b, pat);
      GrepIsExpected(text, found, pat);
      SameTags(EntryName(img, i), GrepFile(text, found, pat).hits, Expected(text, pat));
    }
  }

  /** Every matching line of entry `i` can be found, fits the buffer and holds no NUL. */
  ghost predicate EntryFits(img: Image, i: nat, pat: seq<byte>)
    requires WellFormed(img) && i < NumDirs(img)
  {
    Dotted(EntryName(img, i)) ||
    forall l :: l in Expected(TextOf(img, i), pat) ==> Searchable(pat) && |l| <= BUFSIZE && NUL !in l
  }

  /** No row of entry `i` that is carried down holds a NUL; texts without NUL always qualify. */
  ghost predicate EntryClean(img: Image, i: nat)
    requires WellFormed(img) && i < NumDirs(img)
  {
    Dotted(EntryName(img, i)) || CarriesClean(TextOf(img, i), false)
  }

  lemma TextEntryIsClean(img: Image, i: nat)
    requires WellFormed(img) && i < NumDirs(img) && NUL !in TextOf(img, i)
    ensures EntryClean(img, i)
  {
    TextCarriesClean(TextOf(img, i), false);
  }

  /**
   A clean entry on its own, whatever the other entries hold and whatever is in the buffer: it prints the
   rows of its file, and these are the wanted lines exactly when its matching lines fit.
   */
  lemma CleanChunkIsWanted(img: Image, i: nat, b: Buffer, pat: seq<byte>)
    requires WellFormed(img) && i < NumDirs(img) && !Stale(b) && EntryClean(img, i)
    ensures !Dotted(EntryName(img, i)) ==>
              Chunk(img, i, b, pat) == Tagged(EntryName(img, i), Printed(TextOf(img, i), BUFSIZE, false, pat))
    ensures Chunk(img, i, b, pat) == WantedChunk(img, i, pat) <==> EntryFits(img, i, pat)
  {
    hide WellFormed;
    hide TextOf;
    hide Printed;
    hide Expected;
    hide EntryName;
    hide Tagged;
    hide GrepFile;
    hide CarriesClean;
    if !Dotted(EntryName(img, i)) {
      var text, name, found := TextOf(img, i), EntryName(img, i), Found(img, i, b, pat);
      GrepPrints(text, found, pat);
      CleanBufferIsExpected(text, pat);
      SameTags(name, Printed(text, BUFSIZE, false, pat), Expected(text, pat));
    }
  }

  /** Every line printed for the first `n` entries names one of them. */
  ghost predicate FromFirst(img: Image, n: nat, lines: seq<Line>) {
    forall l :: l in lines ==> exists j :: 0 <= j < n && EntryName(img, j) == l.file
  }

  lemma {:induction false} ReportFromFirst(img: Image, n: nat, b: Buffer, pat: seq<byte>)
    requires WellFormed(img) && n <= NumDirs(img)
    ensures FromFirst(img, n, Report(img, n, b, pat).out) && FromFirst(img, n, Wanted(img, n, pat))
  {
    hide WellFormed;
    hide EntryName;
    hide Chunk;
    hide WantedChunk;
    hide FromFirst;
    hide AllFrom;
    hide Report;
    hide Wanted;
    if n == 0 {
      NothingYet(img, b, pat);
    } else {
      ReportFromFirst(img, n - 1, b, pat);
      ChunkTags(img, n - 1, b, pat);
      ReportUnfolds(img, n - 1, b, pat);
      OneMoreEntry(img, n - 1, Report(img, n - 1, b, pat).out, Chunk(img, n - 1, b, pat));
      OneMoreEntry(img, n - 1, Wanted(img, n - 1, pat), WantedChunk(img, n - 1, pat));
    }
  }

  lemma NothingYet(img: Image, b: Buffer, pat: seq<byte>)
    requires WellFormed(img)
    ensures FromFirst(img, 0, Report(img, 0, b, pat).out) && FromFirst(img, 0, Wanted(img, 0, pat))
  {
  }

  lemma OneMoreEntry(img: Image, i: nat, lines: seq<Line>, chunk: seq<Line>)
    requires FromFirst(img, i, lines) && AllFrom(chunk, EntryName(img, i))
    ensures FromFirst(img, i + 1, lines + chunk)
  {
    hide EntryName;
  }

  ghost predicate AllFrom(lines: seq<Line>, name: seq<byte>) {
    forall l :: l in lines ==> l.file == name
  }

  lemma ChunkTags(img: Image, i: nat, b: Buffer, pat: seq<byte>)
    requires WellFormed(img) && i < NumDirs(img)
    ensures AllFrom(Chunk(img, i, b, pat), EntryName(img, i)) && AllFrom(WantedChunk(img, i, pat), EntryName(img, i))
  {
    hide WellFormed;
    hide TextOf;
    hide Expected;
    hide EntryName;
    hide GrepFile;
    hide Report;
  }

  lemma ReportUnfolds(img: Image, i: nat, b: Buffer, pat: seq<byte>)
    requires WellFormed(img) && i < NumDirs(img)
    ensures Report(img, i + 1, b, pat).out == Report(img, i, b, pat).out + Chunk(img, i, b, pat)
    ensures Wanted(img, i + 1, pat) == Wanted(img, i, pat) + WantedChunk(img, i, pat)
  {
    hide WellFormed;
    hide Visit;
    hide WantedChunk;
  }

  ghost predicate NoneFrom(lines: seq<Line>, name: seq<byte>) {
    forall l :: l in lines ==> l.file != name
  }

  lemma EarlierNamesDiffer(img: Image, i: nat, lines: seq<Line>)
    requires WellFormed(img) && i < NumDirs(img) && FromFirst(img, i, lines)
    ensures NoneFrom(lines, EntryName(img, i))
  {
    hide EntryName;
    hide EntryWellFormed;
  }

  lemma TagsShow(r: seq<Line>, c: seq<Line>, w: seq<Line>, d: seq<Line>, name: seq<byte>)
    requires NoneFrom(w, name) && AllFrom(c, name) && |r| < |w|
    ensures r + c != w + d
  {
    if |r + c| == |w + d| {
      assert (r + c)[|r|] == c[0] && (w + d)[|r|] == w[|r|];
      assert c[0] in c && w[|r|] in w;
    }
  }

  /** Concatenations agree only piece by piece when the last pieces carry a tag that nothing else carries. */
  lemma LastPieces(r: seq<Line>, c: seq<Line>, w: seq<Line>, d: seq<Line>, name: seq<byte>)
    requires NoneFrom(r, name) && NoneFrom(w, name) && AllFrom(c, name) && AllFrom(d, name)
    ensures r + c == w + d <==> r == w && c == d
  {
    if |r| < |w| {
      TagsShow(r, c, w, d, name);
    } else if |w| < |r| {
      TagsShow(w, d, r, c, name);
    } else if r + c == w + d {
      assert r == (r + c)[..|r|] == (w + d)[..|w|] == w;
      assert c == (r + c)[|r|..] == (w + d)[|w|..] == d;
    }
  }

  /** The report as a whole is the wanted one exactly when every entry's part is, for every image and buffer. */
  lemma {:induction false} ReportIsWanted(img: Image, n: nat, b: Buffer, pat: seq<byte>)
    requires WellFormed(img) && n <= NumDirs(img)
    ensures Report(img, n, b, pat).out == Wanted(img, n, pat) <==>
            forall i :: 0 <= i < n ==> Chunk(img, i, b, pat) == WantedChunk(img, i, pat)
  {
    hide WellFormed;
    hide EntryName;
    hide Chunk;
    hide WantedChunk;
    hide Visit;
    hide FromFirst;
    hide AllFrom;
    hide NoneFrom;
    if n > 0 {
      var i := n - 1;
      var before, wanted := Report(img, i, b, pat).out, Wanted(img, i, pat);
      ReportIsWanted(img, i, b, pat);
      ReportFromFirst(img, i, b, pat);
      EarlierNamesDiffer(img, i, before);
      EarlierNamesDiffer(img, i, wanted);
      ChunkTags(img, i, b, pat);
      ReportUnfolds(img, i, b, pat);
      LastPieces(before, Chunk(img, i, b, pat), wanted, WantedChunk(img, i, pat), EntryName(img, i));
    }
  }

  // ---------------------------------------------------------------- the report read back, file by file

  /** What a reader of the output sees under one file name, in the order of the output. */
  ghost function TextsOf(lines: seq<Line>, name: seq<byte>): seq<seq<byte>> {
    if lines == [] then []
    else (if lines[0].file == name then [lines[0].text] else []) + TextsOf(lines[1..], name)
  }

  lemma {:induction false} TextsInParts(a: seq<Line>, b: seq<Line>, name: seq<byte>)
    ensures TextsOf(a + b, name) == TextsOf(a, name) + TextsOf(b, name)
  {
    if a == [] {
      assert a + b == b;
    } else {
      assert (a + b)[0] == a[0] && (a + b)[1..] == a[1..] + b;
      TextsInParts(a[1..], b, name);
    }
  }

  lemma {:induction false} TextsOfOthers(lines: seq<Line>, name: seq<byte>)
    requires NoneFrom(lines, name)
    ensures TextsOf(lines, name) == []
  {
    if lines != [] {
      assert lines[0] in lines && forall l :: l in lines[1..] ==> l in lines;
      TextsOfOthers(lines[1..], name);
    }
  }

  lemma {:induction false} TextsOfTagged(name: seq<byte>, rows: seq<seq<byte>>)
    ensures TextsOf(Tagged(name, rows), name) == rows
  {
    if rows != [] {
      assert Tagged(name, rows)[0] == Line(name, rows[0]);
      assert Tagged(name, rows)[1..] == Tagged(name, rows[1..]);
      TextsOfTagged(name, rows[1..]);
    }
  }

  /** The rows grep prints for the file of entry `i`; none when its name starts with a dot (byte 46). */
  ghost function PrintedFor(img: Image, i: nat, b: Buffer, pat: seq<byte>): seq<seq<byte>>
    requires WellFormed(img) && i < NumDirs(img)
  {
    assert EntryWellFormed(img, i);
    if EntryName(img, i)[0] == 46 then [] else GrepFile(TextOf(img, i), Found(img, i, b, pat), pat).hits
  }

  /** The lines of the file of entry `i` that contain the pattern. */
  ghost function WantedFor(img: Image, i: nat, pat: seq<byte>): seq<seq<byte>>
    requires WellFormed(img) && i < NumDirs(img)
  {
    assert EntryWellFormed(img, i);
    if EntryName(img, i)[0] == 46 then [] else Expected(TextOf(img, i), pat)
  }

  lemma ChunkTexts(img: Image, i: nat, b: Buffer, pat: seq<byte>)
    requires WellFormed(img) && i < NumDirs(img)
    ensures var name := EntryName(img, i);
            && TextsOf(Chunk(img, i, b, pat), name) == PrintedFor(img, i, b, pat)
            && TextsOf(WantedChunk(img, i, pat), name) == WantedFor(img, i, pat)
  {
    assert EntryWellFormed(img, i);
    hide WellFormed;
    hide TextOf;
    hide Expected;
    hide EntryName;
    hide GrepFile;
    hide Tagged;
    TextsOfTagged(EntryName(img, i), GrepFile(TextOf(img, i), Found(img, i, b, pat), pat).hits);
    TextsOfTagged(EntryName(img, i), Expected(TextOf(img, i), pat));
  }

  lemma OtherChunksSilent(img: Image, i: nat, j: nat, b: Buffer, pat: seq<byte>)
    requires WellFormed(img) && i < NumDirs(img) && j < NumDirs(img) && i != j
    ensures NoneFrom(Chunk(img, j, b, pat), EntryName(img, i)) && NoneFrom(WantedChunk(img, j, pat), EntryName(img, i))
  {
    hide EntryName;
    hide Chunk;
    hide WantedChunk;
    hide EntryWellFormed;
    ChunkTags(img, j, b, pat);
    assert EntryName(img, i) != EntryName(img, j);
  }

  /**
   Read back under the name of an entry, the report is what grep prints for that file, row by row in
   order, and the wanted report is the file's matching lines in order; nothing under a dotted name.
   */
  lemma {:induction false} ReportTexts(img: Image, n: nat, i: nat, b: Buffer, pat: seq<byte>)
    requires WellFormed(img) && i < n <= NumDirs(img)
    ensures var name := EntryName(img, i);
            && TextsOf(Report(img, n, b, pat).out, name) == PrintedFor(img, i, b, pat)
            && TextsOf(Wanted(img, n, pat), name) == WantedFor(img, i, pat)
    decreases n
  {
    hide WellFormed;
    hide EntryName;
    hide Chunk;
    hide WantedChunk;
    hide Report;
    hide Wanted;
    hide PrintedFor;
    hide WantedFor;
    hide TextsOf;
    hide FromFirst;
    hide NoneFrom;
    var name, j := EntryName(img, i), n - 1;
    var before, wanted := Report(img, j, b, pat).out, Wanted(img, j, pat);
    ReportUnfolds(img, j, b, pat);
    TextsInParts(before, Chunk(img, j, b, pat), name);
    TextsInParts(wanted, WantedChunk(img, j, pat), name);
    if j == i {
      ReportFromFirst(img, i, b, pat);
      EarlierNamesDiffer(img, i, before);
      EarlierNamesDiffer(img, i, wanted);
      TextsOfOthers(before, name);
      TextsOfOthers(wanted, name);
      ChunkTexts(img, i, b, pat);
    } else {
      ReportTexts(img, j, i, b, pat);
      OtherChunksSilent(img, i, j, b, pat);
      TextsOfOthers(Chunk(img, j, b, pat), name);
      TextsOfOthers(WantedChunk(img, j, pat), name);
    }
  }

  /** The whole program: for every image, pattern and buffer, when the report is the wanted one. */
  lemma WholeReportIsWanted(img: Image, b: Buffer, pat: seq<byte>)
    requires WellFormed(img)
    ensures Report(img, NumDirs(img), b, pat).out == Wanted(img, NumDirs(img), pat) <==>
            forall i :: 0 <= i < NumDirs(img) ==> EntryRight(img, i, Found(img, i, b, pat), pat)
  {
    hide WellFormed;
    hide EntryRight;
    hide Found;
    hide Chunk;
    hide WantedChunk;
    hide Report;
    ReportIsWanted(img, NumDirs(img), b, pat);
    forall i | 0 <= i < NumDirs(img)
      ensures Chunk(img, i, b, pat) == WantedChunk(img, i, pat) <==> EntryRight(img, i, Found(img, i, b, pat), pat)
    {
      ChunkIsWanted(img, i, b, pat);
    }
  }

  /** "." is the directory, the entry behind the last one is empty, all other entries are files or the clock. */
  ghost predicate Greppable(img: Image)
    requires WellFormed(img)
  {
    && (Listed(img, [DOT]) ==> Entry(img, IndexOf(img, [DOT])).fileType == TYPE_DIRECTORY)
    && img[DentryAt(NumDirs(img))] == NUL
    && forall i :: 0 <= i < NumDirs(img) ==> StreamsOrDotted(img, i)
  }

  ghost predicate StreamsOrDotted(img: Image, i: nat)
    requires WellFormed(img) && i < NumDirs(img)
  {
    var name := EntryName(img, i);
    Listed(img, name) && (Dotted(name) || Streams(img, name))
  }

  /** Only the directory descriptor is open, at entry `i`. */
  ghost predicate Scanning(t: Table, fd: int, i: nat) {
    fd == 2 && t[2] == Fd(DirectoryOps, 0, i, 1) && forall k :: 3 <= k < FD_COUNT ==> t[k].flags == 0
  }

  /** The next name of the directory, terminated in the caller's buffer; 0 behind the last one. */
  method NextName(pcb: Pcb, fd: int, buf: array<byte>, ghost i: nat) returns (cnt: nat)
    requires pcb.Valid() && Scanning(pcb.fds[..], fd, i) && i <= NumDirs(pcb.img) && buf.Length == NAME_SIZE + 1
    modifies pcb.fds, buf
    ensures pcb.Valid() && Scanning(pcb.fds[..], fd, i + 1)
    ensures cnt == |EntryName(pcb.img, i)| && buf[..cnt] == EntryName(pcb.img, i) && buf[cnt] == NUL
    ensures Terminated(buf[..], 0) && AsString(buf[..]) == EntryName(pcb.img, i)
  {
    ghost var name := EntryName(pcb.img, i);
    var r := pcb.Read(fd, buf, 0, NAME_SIZE, []);
    assert Slice(name, 0, NAME_SIZE) == name;
    buf[r] := NUL;
    assert buf[..r] == name;
    CStringShape(pcb.img, DentryAt(i), NAME_SIZE);
    CStringIsUnique(buf[..], 0, buf.Length, name);
    return r;
  }

  method OpenDirectory(pcb: Pcb) returns (fd: int)
    requires pcb.Valid() && pcb.fds[..] == FreshTable() && Greppable(pcb.img)
    modifies pcb.fds
    ensures pcb.Valid()
    ensures fd == -1 <==> !Listed(pcb.img, [DOT])
    ensures fd != -1 ==> Scanning(pcb.fds[..], fd, 0)
  {
    hide WellFormed;
    var name := [DOT, NUL];
    assert name[1] == NUL && name[..1] == [DOT];
    CStringIsUnique(name, 0, |name|, [DOT]);
    fd := pcb.Open(name);
  }

  /** The loop body of the program for a name that was just read. */
  method GrepEntry(pcb: Pcb, fd: int, search: seq<byte>, buf: array<byte>, cnt: nat, data: array<byte>, ghost i: nat)
    returns (code: int, lines: seq<Line>)
    requires pcb.Valid() && i < NumDirs(pcb.img) && Scanning(pcb.fds[..], fd, i + 1)
    requires StreamsOrDotted(pcb.img, i) && Terminated(search, 0)
    requires 0 < cnt < buf.Length && buf[..cnt] == EntryName(pcb.img, i)
    requires Terminated(buf[..], 0) && AsString(buf[..]) == EntryName(pcb.img, i)
    requires data.Length == BUFSIZE + 1 && buf != data
    modifies pcb.fds, data
    ensures pcb.Valid() && Scanning(pcb.fds[..], fd, i + 1)
    ensures code == 0 && Scan(lines, data[..]) == Visit(pcb.img, i, old(data[..]), AsString(search))
  {
    hide WellFormed;
    hide EntryName;
    hide GrepFile;
    hide FileText;
    hide Tagged;
    assert buf[0] == buf[..cnt][0];
    if buf[0] == DOT {
      return 0, [];
    }
    ghost var table := pcb.fds[..];
    assert LowestFree(table, 2) == LowestFree(table, 3) == 3;
    var failed, hits := DoOneFile(pcb, search, buf[..], data);
    if failed != 0 {
      return 3, [];
    }
    lines := Tag(buf[..cnt], hits);
    code := 0;
  }

  /**
   The program, started in a fresh process on any image whose files hold any bytes and with any
   contents of its buffer. It scans the directory and prints, file by file in directory order.
   */
  method GrepMain(pcb: Pcb, search: seq<byte>, buf: array<byte>, data: array<byte>)
    returns (code: int, out: seq<Line>)
    requires pcb.Valid() && pcb.fds[..] == FreshTable() && Greppable(pcb.img) && Terminated(search, 0)
    requires buf.Length == NAME_SIZE + 1 && data.Length == BUFSIZE + 1 && buf != data
    modifies pcb.fds, buf, data
    ensures code == 0 <==> Listed(pcb.img, [DOT])
    ensures code == 0 ==>
              Scan(out, data[..]) == Report(pcb.img, NumDirs(pcb.img), old(data[..]), AsString(search))
    ensures code != 0 ==> code == 2 && out == []
  {
    hide Visit;
    hide Scanning;
    hide Listed;
    hide WellFormed;
    hide Greppable;
    hide StreamsOrDotted;
    hide AsString;
    hide TableOk;
    hide EntryName;
    hide Terminated;
    var fd := OpenDirectory(pcb);
    if fd == -1 {
      return 2, [];
    }
    out := [];
    ghost var i := 0;
    var cnt := NextName(pcb, fd, buf, 0);
    while cnt != 0
      invariant pcb.Valid() && i <= NumDirs(pcb.img) && Scanning(pcb.fds[..], fd, i + 1)
      invariant cnt == |EntryName(pcb.img, i)| < buf.Length && buf[..cnt] == EntryName(pcb.img, i)
      invariant Terminated(buf[..], 0) && AsString(buf[..]) == EntryName(pcb.img, i)
      invariant Scan(out, data[..]) == Report(pcb.img, i, old(data[..]), AsString(search))
      decreases NumDirs(pcb.img) - i
    {
      EntryThere(pcb.img, i);
      var failed, lines := GrepEntry(pcb, fd, search, buf, cnt, data, i);
      if failed != 0 {
        return 3, [];
      }
      out := out + lines;
      i := i + 1;
      cnt := NextName(pcb, fd, buf, i);
    }
    EntryThere(pcb.img, i);
    return 0, out;
  }

  lemma EntryThere(img: Image, i: nat)
    requires WellFormed(img) && Greppable(img) && i <= NumDirs(img)
    ensures EntryName(img, i) == [] <==> i == NumDirs(img)
    ensures i < NumDirs(img) ==> StreamsOrDotted(img, i)
  {
    if i < NumDirs(img) {
      assert EntryWellFormed(img, i);
    }
  }

  method Tag(file: seq<byte>, rows: seq<seq<byte>>) returns (r: seq<Line>)
    ensures r == Tagged(file, rows)
  {
    r := seq(|rows|, i requires 0 <= i < |rows| => Line(file, rows[i]));
  }

  // ---------------------------------------------------------------- on an image built from files

  /** What grep reads for an entry is what was put in as its file; the clock has no text. */
  lemma BuiltText(d: Disk, i: nat)
    requires DiskOk(d) && i < |d.dirs|
    ensures WellFormed(Build(d)) && NumDirs(Build(d)) == |d.dirs|
    ensures d.dirs[i].kind == 2 && d.dirs[i].inode < |d.files| ==> TextOf(Build(d), i) == d.files[d.dirs[i].inode]
    ensures d.dirs[i].kind == 0 ==> TextOf(Build(d), i) == []
  {
    hide Build;
    hide Contents;
    hide Readable;
    BuiltWellFormed(d);
    EntryRoundTrip(d, i);
    NamesAnEntry(Build(d), i);
    hide WellFormed;
    hide EntryName;
    if d.dirs[i].kind == 2 && d.dirs[i].inode < |d.files| {
      ContentsRoundTrip(d, d.dirs[i].inode);
    }
    hide DiskOk;
  }

  /**
   From files to output: on an image built from files, the lines reported under the name of a text file
   are exactly its lines that contain the pattern, in order, whatever the other files hold.
   */
  lemma GrepOnDisk(d: Disk, i: nat, b: Buffer, pat: seq<byte>)
    requires DiskOk(d) && i < |d.dirs| && d.dirs[i].kind == 2 && d.dirs[i].inode < |d.files| && !Stale(b)
    requires d.dirs[i].name != [] && d.dirs[i].name[0] != 46 && NUL !in d.files[d.dirs[i].inode] && Searchable(pat)
    requires forall l :: l in Expected(d.files[d.dirs[i].inode], pat) ==> |l| <= BUFSIZE
    ensures WellFormed(Build(d))
    ensures TextsOf(Report(Build(d), |d.dirs|, b, pat).out, d.dirs[i].name) == Expected(d.files[d.dirs[i].inode], pat)
  {
    hide Build;
    hide Expected;
    hide Printed;
    hide GrepFile;
    hide TextsOf;
    hide Report;
    hide CarriesClean;
    var img, text := Build(d), d.files[d.dirs[i].inode];
    BuiltText(d, i);
    EntryRoundTrip(d, i);
    hide DiskOk;
    hide WellFormed;
    hide TextOf;
    hide EntryName;
    ReportTexts(img, |d.dirs|, i, b, pat);
    TextCarriesClean(text, false);
    GrepPrints(text, Found(img, i, b, pat), pat);
    CleanBufferIsExpected(text, pat);
    ExpectedHasNoNul(text, pat);
  }

  lemma {:induction false} ExpectedHasNoNul(s: seq<byte>, pat: seq<byte>)
    requires NUL !in s
    ensures forall l :: l in Expected(s, pat) ==> NUL !in l
    decreases |s|
  {
    if s != [] {
      assert forall k :: 0 <= k < |s| ==> s[k] in s;
      ExpectedHasNoNul(AfterLine(s), pat);
    }
  }
}
