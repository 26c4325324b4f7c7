/** What every run of open, close and read calls of one process observes. */
module DescriptorRuns {
  import opened Bytes
  import opened FileSystem
  import opened Descriptors

  datatype Call =
    | OpenCall(name: seq<byte>)
    | CloseCall(fd: int)
    | ReadCall(fd: int, n: int32, typed: seq<byte>)

  /** The table, and per descriptor the name it was last opened under and all bytes returned since. */
  datatype Session = Session(table: Table, names: seq<seq<byte>>, returned: seq<seq<byte>>) {
    ghost predicate Sized() {
      |names| == FD_COUNT && |returned| == FD_COUNT
    }
  }

  ghost function Begin(): Session {
    Session(FreshTable(), seq(FD_COUNT, _ => []), seq(FD_COUNT, _ => []))
  }

  ghost function Perform(img: Image, s: Session, c: Call): (s': Session)
    requires WellFormed(img) && TableOk(img, s.table) && s.Sized()
    ensures s'.Sized()
  {
    match c
    case OpenCall(name) =>
      var (t, r) := OpenStep(img, s.table, name);
      if r < 2 then s else Session(t, s.names[r := name], s.returned[r := []])
    case CloseCall(fd) => s.(table := CloseStep(s.table, fd).0)
    case ReadCall(fd, n, typed) =>
      var (t, d) := ReadStep(img, s.table, fd, n, typed);
      if d.Failed? then s.(table := t) else s.(table := t, returned := s.returned[fd := s.returned[fd] + d.bytes])
  }

  /** The file opened as `name` has been delivered exactly up to the position. */
  ghost predicate Tracks(img: Image, f: Fd, name: seq<byte>, returned: seq<byte>)
    requires WellFormed(img) && FdOk(img, f)
  {
    f.ops == FileOps ==>
      && Listed(img, name)
      && f.inode == Entry(img, IndexOf(img, name)).inode
      && returned == Contents(img, f.inode)[..f.pos]
  }

  ghost predicate Faithful(img: Image, s: Session)
    requires WellFormed(img)
  {
    && s.Sized() && TableOk(img, s.table)
    && forall fd :: 2 <= fd < FD_COUNT && s.table[fd].flags != 0 ==>
         Tracks(img, s.table[fd], s.names[fd], s.returned[fd])
  }

  lemma OpenedIsOk(img: Image, name: seq<byte>)
    requires WellFormed(img) && Listed(img, name)
    requires Entry(img, IndexOf(img, name)).fileType <= TYPE_FILE
    ensures var f := Opened(Entry(img, IndexOf(img, name)));
            FdOk(img, f) && Tracks(img, f, name, [])
            && f.ops != TerminalInput && f.ops != TerminalOutput && f.flags != 0
  {
    assert EntryWellFormed(img, IndexOf(img, name));
  }

  lemma OpenKeepsFaithful(img: Image, s: Session, name: seq<byte>)
    requires WellFormed(img) && Faithful(img, s)
    ensures Faithful(img, Perform(img, s, OpenCall(name)))
  {
    var (t, r) := OpenStep(img, s.table, name);
    if r >= 2 {
      OpenedIsOk(img, name);
    }
  }

  lemma ReadKeepsFaithful(img: Image, s: Session, fd: int, n: int32, typed: seq<byte>)
    requires WellFormed(img) && Faithful(img, s)
    ensures Faithful(img, Perform(img, s, ReadCall(fd, n, typed)))
  {
    hide WellFormed;
    hide FdOk;
    hide Advanced;
    hide Delivered;
    hide Tracks;
    if 0 <= fd < FD_COUNT && s.table[fd].flags != 0 {
      var f := s.table[fd];
      AdvanceKeepsTable(img, s.table, fd, Count(f.ops, n));
      if fd >= 2 {
        AdvanceTracks(img, f, s.names[fd], s.returned[fd], Count(f.ops, n), typed);
      }
    }
  }

  /** The bytes delivered extend those already returned, for whatever count. */
  lemma AdvanceTracks(img: Image, f: Fd, name: seq<byte>, returned: seq<byte>, n: nat, typed: seq<byte>)
    requires WellFormed(img) && FdOk(img, f) && Tracks(img, f, name, returned)
    requires f.ops != TerminalInput && f.ops != TerminalOutput
    ensures FdOk(img, Advanced(img, f, n))
    ensures var d := Delivered(img, f, n, typed);
            Tracks(img, Advanced(img, f, n), name, if d.Failed? then returned else returned + d.bytes)
  {
    hide Contents;
    hide Readable;
    hide WellFormed;
    hide Listed;
    hide Slice;
    if f.ops == FileOps {
      SliceExtends(Contents(img, f.inode), f.pos, n);
    }
  }

  ghost function Run(img: Image, calls: seq<Call>): (s: Session)
    requires WellFormed(img)
    ensures Faithful(img, s)
  {
    if calls == [] then Begin() else
      var s := Run(img, calls[..|calls| - 1]);
      var c := calls[|calls| - 1];
      match c
      case OpenCall(name) => OpenKeepsFaithful(img, s, name); Perform(img, s, c)
      case CloseCall(fd) => Perform(img, s, c)
      case ReadCall(fd, n, typed) => ReadKeepsFaithful(img, s, fd, n, typed); Perform(img, s, c)
  }

  /**
   After any calls whatever, a further read of an open file returns exactly the bytes that follow
   those already returned, and nothing but those: no other descriptor or call interferes.
   */
  lemma EveryReadContinuesTheFile(img: Image, calls: seq<Call>, fd: int, n: int32)
    requires WellFormed(img) && 2 <= fd < FD_COUNT
    requires var f := Run(img, calls).table[fd]; f.flags != 0 && f.ops == FileOps
    ensures var s := Run(img, calls);
            var file := Contents(img, Entry(img, IndexOf(img, s.names[fd])).inode);
            && s.returned[fd] <= file
            && ReadStep(img, s.table, fd, n, []).1 == Got(Slice(file, |s.returned[fd]|, Count(FileOps, n)))
            && (ReadStep(img, s.table, fd, n, []).1 == Got([]) <==> n == 0 || s.returned[fd] == file)
  {
    var s := Run(img, calls);
    assert Tracks(img, s.table[fd], s.names[fd], s.returned[fd]);
  }

  /** A successful open takes the lowest free index in 2..7, starts at 0 and touches nothing else. */
  lemma OpenTakesLowestFree(img: Image, t: Table, name: seq<byte>)
    requires WellFormed(img)
    ensures var (t', r) := OpenStep(img, t, name);
            && (r >= 2 <==> Listed(img, name) && Entry(img, IndexOf(img, name)).fileType <= TYPE_FILE
                            && exists k :: 2 <= k < FD_COUNT && t[k].flags == 0)
            && (r >= 2 ==> r < FD_COUNT && t[r].flags == 0 && t'[r].flags != 0 && t'[r].pos == 0
                           && (forall k :: 2 <= k < r ==> t[k].flags != 0)
                           && forall k :: 0 <= k < FD_COUNT && k != r ==> t'[k] == t[k])
            && (r < 2 ==> t' == t)
  {
    assert exists k :: 2 <= k < FD_COUNT && t[k].flags == 0 <==> LowestFree(t, 2) < FD_COUNT by {
      if LowestFree(t, 2) < FD_COUNT {
        assert t[LowestFree(t, 2)].flags == 0;
      }
    }
  }

  // ---------------------------------------------------------------- listing the directory

  /** The names returned by `k` successive reads of a directory descriptor. */
  ghost function Listing(img: Image, t: Table, fd: int, n: int32, k: nat): (Table, seq<seq<byte>>)
    requires TableOk(img, t) && 2 <= fd < FD_COUNT && t[fd] == Fd(DirectoryOps, 0, 0, 1)
    requires k <= NUM_DIR + 1
    ensures Listing(img, t, fd, n, k).0 == t[fd := t[fd].(pos := k)]
    ensures |Listing(img, t, fd, n, k).1| == k
    decreases k
  {
    if k == 0 then (t, []) else
      var (t1, names) := Listing(img, t, fd, n, k - 1);
      assert TableOk(img, t1);
      var (t2, d) := ReadStep(img, t1, fd, n, []);
      (t2, names + [d.bytes])
  }

  lemma ListingStep(img: Image, t: Table, fd: int, n: int32, k: nat)
    requires TableOk(img, t) && 2 <= fd < FD_COUNT && t[fd] == Fd(DirectoryOps, 0, 0, 1)
    requires n >= NAME_SIZE && k <= NUM_DIR
    ensures Listing(img, t, fd, n, k + 1).1 == Listing(img, t, fd, n, k).1 + [EntryName(img, k)]
  {
    var (t1, names) := Listing(img, t, fd, n, k);
    assert t1[fd].pos == k;
    assert Slice(EntryName(img, k), 0, n) == EntryName(img, k);
  }

  /**
   Reading a freshly opened directory with room for a full name lists every name once, in order.
   */
  lemma {:induction false} ListingIsTheDirectory(img: Image, t: Table, fd: int, n: int32, k: nat)
    requires TableOk(img, t) && 2 <= fd < FD_COUNT && t[fd] == Fd(DirectoryOps, 0, 0, 1)
    requires n >= NAME_SIZE && k <= NUM_DIR
    ensures forall i :: 0 <= i < k ==> Listing(img, t, fd, n, k).1[i] == EntryName(img, i)
    decreases k
  {
    hide EntryName;
    hide TableOk;
    if k > 0 {
      ListingIsTheDirectory(img, t, fd, n, k - 1);
      ListingStep(img, t, fd, n, k - 1);
      hide Listing;
      var before, after := Listing(img, t, fd, n, k - 1).1, Listing(img, t, fd, n, k).1;
      assert after == before + [EntryName(img, k - 1)];
    }
  }

  /**
   The read after the last name returns 0 bytes exactly when the byte behind the last entry is NUL:
   with 63 entries that byte is the low byte of inode 0's length, not an unused entry.
   */
  lemma ListingEnds(img: Image, t: Table, fd: int, n: int32)
    requires NumDirs(img) <= NUM_DIR && TableOk(img, t) && 2 <= fd < FD_COUNT && t[fd] == Fd(DirectoryOps, 0, 0, 1)
    requires n >= NAME_SIZE
    ensures Listing(img, t, fd, n, NumDirs(img) + 1).1[NumDirs(img)] == [] <==> img[DentryAt(NumDirs(img))] == NUL
  {
    ListingStep(img, t, fd, n, NumDirs(img));
  }

  // ---------------------------------------------------------------- a full directory

  /** 63 entries for the clock, called by one byte each, and an inode 0 whose length is 1. */
  function FullByte(k: nat): byte {
    if k == 0 then NUM_DIR
    else if k == BLOCK_SIZE then 1
    else if 64 <= k < BLOCK_SIZE && k % 64 == 0 then k / 64
    else NUL
  }

  ghost function FullImage(): (img: Image)
    ensures forall k :: 0 <= k < |img| ==> img[k] == FullByte(k)
    ensures |img| == 2 * BLOCK_SIZE
  {
    seq(2 * BLOCK_SIZE, k requires 0 <= k => FullByte(k))
  }

  lemma FullByteAt(i: nat, j: nat)
    requires i < NUM_DIR && j < 64
    ensures FullByte(DentryAt(i) + j) == if j == 0 then i + 1 else NUL
  {
    assert DentryAt(i) + j == 64 * (i + 1) + j;
  }

  lemma FullName(i: nat)
    requires i <= NUM_DIR
    ensures EntryName(FullImage(), i) == [if i < NUM_DIR then i + 1 else 1]
  {
    hide FullImage;
    var img, p := FullImage(), DentryAt(i);
    var c: byte := if i < NUM_DIR then i + 1 else 1;
    if i < NUM_DIR {
      FullByteAt(i, 0);
      FullByteAt(i, 1);
    }
    assert img[p] == FullByte(p) == c && img[p + 1] == FullByte(p + 1) == NUL;
    hide FullByte;
    assert img[p..p + 1] == [c];
    CStringIsUnique(img, p, NAME_SIZE, [c]);
  }

  lemma FullEntry(i: nat)
    requires i < NUM_DIR
    ensures EntryWellFormed(FullImage(), i)
  {
    hide FullImage;
    hide EntryName;
    hide Readable;
    hide Contents;
    FullName(i);
    FullTail(i, 32);
    FullTail(i, 33);
    FullTail(i, 34);
    FullTail(i, 35);
    hide FullByte;
    assert Word(FullImage(), DentryAt(i) + 32) == 0;
  }

  lemma FullTail(i: nat, j: nat)
    requires i < NUM_DIR && 0 < j < 64
    ensures DentryAt(i) + j < |FullImage()| && FullImage()[DentryAt(i) + j] == NUL
  {
    hide FullImage;
    FullByteAt(i, j);
    hide FullByte;
    assert FullImage()[DentryAt(i) + j] == FullByte(DentryAt(i) + j);
  }

  lemma FullWellFormed()
    ensures NumDirs(FullImage()) == NUM_DIR && WellFormed(FullImage())
  {
    hide FullImage;
    hide EntryName;
    hide EntryWellFormed;
    var img := FullImage();
    assert NumDirs(img) == NUM_DIR by {
      assert img[0] == FullByte(0) && img[1] == FullByte(1) && img[2] == FullByte(2) && img[3] == FullByte(3);
    }
    forall i | 0 <= i < NUM_DIR
      ensures EntryWellFormed(img, i) && EntryName(img, i) == [i + 1]
    {
      FullEntry(i);
      FullName(i);
    }
    forall i, j | 0 <= i < j < NUM_DIR
      ensures EntryName(img, i) != EntryName(img, j)
    {
      assert [i + 1][0] != [j + 1][0];
    }
  }

  /** With 63 entries the listing does not end behind the last one: it goes on with a name read from inode 0. */
  lemma FullListingRunsOn(t: Table, fd: int)
    requires TableOk(FullImage(), t) && 2 <= fd < FD_COUNT && t[fd] == Fd(DirectoryOps, 0, 0, 1)
    ensures WellFormed(FullImage()) && NumDirs(FullImage()) == NUM_DIR
    ensures Listing(FullImage(), t, fd, NAME_SIZE, NUM_DIR + 1).1[NUM_DIR] == [1]
  {
    hide FullImage;
    hide EntryName;
    hide Listing;
    hide WellFormed;
    FullWellFormed();
    FullName(NUM_DIR);
    ListingStep(FullImage(), t, fd, NAME_SIZE, NUM_DIR);
  }

  // ---------------------------------------------------------------- descriptors that are not open

  /** Close succeeds exactly on an open descriptor 2..7, clears its flag and touches nothing else. */
  lemma CloseIs(t: Table, fd: int)
    ensures var (t', r) := CloseStep(t, fd);
            && (r == 0 <==> 2 <= fd <= 7 && t[fd].flags != 0) && (r != 0 ==> r == -1 && t' == t)
            && (r == 0 ==> t'[fd].flags == 0 && forall k :: 0 <= k < 8 && k != fd ==> t'[k] == t[k])
  {
  }

  /** Reading fails, and changes nothing, on every descriptor that is out of range or not open, and on 1. */
  lemma UnopenedReadFails(img: Image, t: Table, fd: int, n: int32, typed: seq<byte>)
    requires TableOk(img, t) && (fd < 0 || fd > 7 || t[fd].flags == 0 || fd == 1)
    ensures ReadStep(img, t, fd, n, typed) == (t, Failed)
  {
    if fd == 1 {
      assert t[1 := t[1]] == t;
    }
  }

  /** What has been closed cannot be read or closed again. */
  lemma ClosedIsClosed(img: Image, t: Table, fd: int, n: int32, typed: seq<byte>)
    requires TableOk(img, t) && 2 <= fd <= 7
    ensures var t' := CloseStep(t, fd).0;
            && TableOk(img, t') && ReadStep(img, t', fd, n, typed) == (t', Failed) && CloseStep(t', fd) == (t', -1)
  {
  }

  /** In a new process 0 reads the keyboard, and neither 1 nor 2..7 can be read. */
  lemma FreshTableIs(img: Image, fd: int, n: int32, typed: seq<byte>)
    ensures TableOk(img, FreshTable())
    ensures ReadStep(img, FreshTable(), 0, n, typed) == (FreshTable(), Got(typed))
    ensures fd != 0 ==> ReadStep(img, FreshTable(), fd, n, typed) == (FreshTable(), Failed)
  {
    var t := FreshTable();
    assert t[0 := t[0]] == t && t[1 := t[1]] == t;
  }

  /** A negative count delivers the rest of a file, and an empty name of the directory, which still advances. */
  lemma NegativeCountIs(img: Image, t: Table, fd: int, n: int32)
    requires TableOk(img, t) && 2 <= fd <= 7 && t[fd].flags != 0 && n < 0
    ensures t[fd].ops == FileOps ==>
              && FdOk(img, t[fd])
              && ReadStep(img, t, fd, n, []).1 == Got(Contents(img, t[fd].inode)[t[fd].pos..])
    ensures t[fd].ops == DirectoryOps && t[fd].pos <= 63 ==>
              && ReadStep(img, t, fd, n, []).1 == Got([])
              && ReadStep(img, t, fd, n, []).0[fd].pos == t[fd].pos + 1
  {
    assert FdOk(img, t[fd]);
    if t[fd].ops == FileOps {
      var file, pos := Contents(img, t[fd].inode), t[fd].pos;
      assert |file| <= 1023 * 4096;
      assert pos < |file| ==> file[pos..|file|] == file[pos..];
    }
  }
}
