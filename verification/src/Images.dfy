/**
 Images built byte by byte at literal offsets, and the round trip through the file system: what was put
 in under a name is what lookup, open and read give back.
 */
module Images {
  import opened Bytes
  import opened CStrings
  import opened FileSystem
  import opened Descriptors

  /** One directory entry as it is meant: type 0 is the clock, 1 the directory, 2 a file. */
  datatype Named = Named(name: seq<byte>, kind: nat, inode: nat)

  /** `place[i][j]` is the number of the data block that holds block `j` of file `i`. */
  datatype Disk = Disk(dirs: seq<Named>, files: seq<seq<byte>>, place: seq<seq<nat>>, blocks: nat)

  predicate NameOk(e: Named, files: nat) {
    1 <= |e.name| <= 32 && 0 !in e.name && e.kind < 256 && e.inode < 0x1_0000_0000 && (e.kind == 2 ==> e.inode < files)
  }

  predicate PlaceOk(file: seq<byte>, place: seq<nat>, blocks: nat) {
    |file| <= 1023 * 4096 && |place| == (|file| + 4095) / 4096 && forall j :: 0 <= j < |place| ==> place[j] < blocks
  }

  /** At most 63 named entries and any files, their blocks scattered over the data area in any way. */
  ghost predicate DiskOk(d: Disk) {
    && |d.dirs| <= 63 && 1 <= |d.files| < 0x1_0000_0000 && |d.place| == |d.files| && d.blocks < 0x1_0000_0000
    && (forall i :: 0 <= i < |d.dirs| ==> NameOk(d.dirs[i], |d.files|))
    && (forall i, j :: 0 <= i < j < |d.dirs| ==> d.dirs[i].name != d.dirs[j].name)
    && (forall i :: 0 <= i < |d.files| ==> PlaceOk(d.files[i], d.place[i], d.blocks))
    && (forall i, j, i', j' :: Owns(d, i, j) && Owns(d, i', j') && d.place[i][j] == d.place[i'][j'] ==>
          i == i' && j == j')
  }

  ghost predicate Owns(d: Disk, i: int, j: int) {
    0 <= i < |d.place| && 0 <= j < |d.place[i]|
  }

  // ---------------------------------------------------------------- the bytes of the image

  /** Byte `b` of a 32-bit word, lowest first. */
  function WordByte(v: nat, b: nat): byte {
    if b == 0 then v % 256 else WordByte(v / 256, b - 1)
  }

  /** Byte `o` of a 64-byte directory entry: 32 bytes of name, the type at 32, the inode number at 36. */
  function EntryByte(e: Named, o: nat): byte {
    if o < 32 then (if o < |e.name| then e.name[o] else 0)
    else if o < 36 then WordByte(e.kind, o - 32)
    else if o < 40 then WordByte(e.inode, o - 36)
    else 0
  }

  /** Byte `o` of an inode block: the length, then the block numbers. */
  function InodeByte(file: seq<byte>, place: seq<nat>, o: nat): byte {
    WordByte(InodeValue(file, place, o / 4), o % 4)
  }

  /** Byte `o` of data block `block`: the bytes of the file block placed there. */
  ghost function DataByte(d: Disk, block: nat, o: nat): byte
    requires |d.place| == |d.files|
  {
    if exists i, j :: Owns(d, i, j) && d.place[i][j] == block then
      var i, j :| Owns(d, i, j) && d.place[i][j] == block;
      if 4096 * j + o < |d.files[i]| then d.files[i][4096 * j + o] else 0
    else 0
  }

  /** Boot block with counts and directory, one block per inode, then the data blocks. */
  ghost function DiskByte(d: Disk, block: nat, o: nat): byte
    requires |d.place| == |d.files|
  {
    if block == 0 then
      if o < 4 then WordByte(|d.dirs|, o)
      else if o < 8 then WordByte(|d.files|, o - 4)
      else if 64 <= o < 64 + 64 * |d.dirs| then EntryByte(d.dirs[(o - 64) / 64], o % 64)
      else 0
    else if block <= |d.files| then InodeByte(d.files[block - 1], d.place[block - 1], o)
    else DataByte(d, block - 1 - |d.files|, o)
  }

  ghost function Build(d: Disk): (img: Image)
    requires DiskOk(d)
    ensures |img| == 4096 * (1 + |d.files| + d.blocks)
  {
    seq(4096 * (1 + |d.files| + d.blocks), k requires 0 <= k => DiskByte(d, k / 4096, k % 4096))
  }

  lemma BuiltAt(d: Disk, block: nat, o: nat)
    requires DiskOk(d) && block < 1 + |d.files| + d.blocks && o < 4096
    ensures 4096 * block + o < |Build(d)| && Build(d)[4096 * block + o] == DiskByte(d, block, o)
  {
    hide DiskByte;
    var k := 4096 * block + o;
    assert k / 4096 == block && k % 4096 == o;
  }

  lemma WordIs(s: seq<byte>, p: nat, v: nat)
    requires p + 4 <= |s| && v < 0x1_0000_0000
    requires s[p] == WordByte(v, 0) && s[p + 1] == WordByte(v, 1)
    requires s[p + 2] == WordByte(v, 2) && s[p + 3] == WordByte(v, 3)
    ensures Word(s, p) == v
  {
    var v1 := v / 256;
    var v2 := v1 / 256;
    var v3 := v2 / 256;
    assert WordByte(v, 1) == v1 % 256 && WordByte(v, 2) == WordByte(v1, 1) == v2 % 256;
    assert WordByte(v, 3) == WordByte(v1, 2) == WordByte(v2, 1) == v3 % 256;
    hide WordByte;
    assert v == v % 256 + 256 * v1 && v1 == v1 % 256 + 256 * v2 && v2 == v2 % 256 + 256 * v3 && v3 < 256;
  }

  lemma FileIsPlaced(d: Disk, i: nat)
    requires DiskOk(d) && i < |d.files|
    ensures |d.place| == |d.files| && PlaceOk(d.files[i], d.place[i], d.blocks)
    ensures d.blocks < 0x1_0000_0000 && |d.place[i]| <= 1023
  {
  }

  // ---------------------------------------------------------------- counts and files

  lemma BuiltCounts(d: Disk)
    requires DiskOk(d)
    ensures NumDirs(Build(d)) == |d.dirs| && NumInodes(Build(d)) == |d.files|
  {
    hide Build;
    forall o | 0 <= o < 8
      ensures Build(d)[o] == if o < 4 then WordByte(|d.dirs|, o) else WordByte(|d.files|, o - 4)
    {
      BuiltAt(d, 0, o);
    }
    hide WordByte;
    WordIs(Build(d), 0, |d.dirs|);
    WordIs(Build(d), 4, |d.files|);
  }

  /** Word `w` of an inode block. */
  function InodeValue(file: seq<byte>, place: seq<nat>, w: nat): nat {
    if w == 0 then |file| else if w - 1 < |place| then place[w - 1] else 0
  }

  lemma InodeByteAt(d: Disk, i: nat, w: nat, b: nat)
    requires DiskOk(d) && i < |d.files| == |d.place| && w <= 1023 && b < 4
    ensures var k := 4096 * (i + 1) + 4 * w + b;
            k < |Build(d)| && Build(d)[k] == WordByte(InodeValue(d.files[i], d.place[i], w), b)
  {
    hide Build;
    hide DiskOk;
    hide WordByte;
    BuiltAt(d, i + 1, 4 * w + b);
    assert (4 * w + b) / 4 == w && (4 * w + b) % 4 == b;
  }

  lemma InodeWord(d: Disk, i: nat, w: nat)
    requires DiskOk(d) && i < |d.files| == |d.place| && w <= |d.place[i]| <= 1023
    ensures 4096 * (i + 1) + 4 * w + 4 <= |Build(d)|
    ensures Word(Build(d), 4096 * (i + 1) + 4 * w) == InodeValue(d.files[i], d.place[i], w)
  {
    hide Build;
    hide WordByte;
    FileIsPlaced(d, i);
    hide DiskOk;
    InodeByteAt(d, i, w, 0);
    InodeByteAt(d, i, w, 1);
    InodeByteAt(d, i, w, 2);
    InodeByteAt(d, i, w, 3);
    WordIs(Build(d), 4096 * (i + 1) + 4 * w, InodeValue(d.files[i], d.place[i], w));
  }

  /** The data of block `j` of file `i` is where the placement says. */
  lemma DataAt(d: Disk, i: nat, j: nat, o: nat)
    requires DiskOk(d) && Owns(d, i, j) && o < 4096 && 4096 * j + o < |d.files[i]|
    ensures DataByte(d, d.place[i][j], o) == d.files[i][4096 * j + o]
  {
  }

  lemma BuiltReadable(d: Disk, i: nat)
    requires DiskOk(d) && i < |d.files|
    ensures Readable(Build(d), i) && FileLength(Build(d), i) == |d.files[i]|
  {
    hide Build;
    var img := Build(d);
    FileIsPlaced(d, i);
    hide DiskOk;
    BuiltCounts(d);
    InodeWord(d, i, 0);
    assert BlockCount(img, i) == |d.place[i]|;
    forall j | 0 <= j < BlockCount(img, i)
      ensures BlockAt(img, BlockNumber(img, i, j)) + BLOCK_SIZE <= |img|
    {
      BlockIs(d, i, j);
    }
  }

  lemma BlockIs(d: Disk, i: nat, j: nat)
    requires DiskOk(d) && i < |d.files| && j < |d.place[i]| <= 1023
    ensures InodeAt(i + 1) <= |Build(d)| && BlockNumber(Build(d), i, j) == d.place[i][j] < d.blocks
    ensures BlockAt(Build(d), d.place[i][j]) == 4096 * (1 + |d.files| + d.place[i][j])
    ensures 4096 * (1 + |d.files| + d.place[i][j]) + 4096 <= |Build(d)|
  {
    hide Build;
    FileIsPlaced(d, i);
    hide DiskOk;
    hide WordByte;
    BuiltCounts(d);
    InodeWord(d, i, j + 1);
    hide Word;
    assert InodeAt(i) + 4 + 4 * j == 4096 * (i + 1) + 4 * (j + 1);
  }

  /** Every file of the image has the contents that were put in, however its blocks are scattered. */
  lemma ContentsRoundTrip(d: Disk, i: nat)
    requires DiskOk(d) && i < |d.files|
    ensures Readable(Build(d), i) && Contents(Build(d), i) == d.files[i]
  {
    hide Build;
    hide DiskOk;
    hide Readable;
    var img, file := Build(d), d.files[i];
    BuiltReadable(d, i);
    forall k | 0 <= k < |file|
      ensures Contents(img, i)[k] == file[k]
    {
      ByteRoundTrip(d, i, k);
    }
  }

  lemma ByteRoundTrip(d: Disk, i: nat, k: nat)
    requires DiskOk(d) && i < |d.files| && k < |d.files[i]|
    ensures Readable(Build(d), i) && k < |Contents(Build(d), i)| && Contents(Build(d), i)[k] == d.files[i][k]
  {
    hide Build;
    hide DiskByte;
    hide DataByte;
    var img, j, o := Build(d), k / 4096, k % 4096;
    BuiltReadable(d, i);
    FileIsPlaced(d, i);
    hide DiskOk;
    BlockOf(|d.files[i]|, k);
    BuiltBlock(d, i, j, o);
    hide Readable;
    hide PlaceOk;
    JoinedAt(img, i, BlockCount(img, i), k);
    BlockIs(d, i, j);
  }

  lemma BlockOf(length: nat, k: nat)
    requires k < length
    ensures k / 4096 < (length + 4095) / 4096 && 4096 * (k / 4096) + k % 4096 == k
  {
  }

  lemma BuiltBlock(d: Disk, i: nat, j: nat, o: nat)
    requires DiskOk(d) && i < |d.files| == |d.place| && j < |d.place[i]| && o < 4096 && 4096 * j + o < |d.files[i]|
    ensures 4096 * (1 + |d.files| + d.place[i][j]) + o < |Build(d)|
    ensures Build(d)[4096 * (1 + |d.files| + d.place[i][j]) + o] == d.files[i][4096 * j + o]
  {
    hide Build;
    hide DiskByte;
    hide DataByte;
    FileIsPlaced(d, i);
    hide DiskOk;
    BuiltAt(d, 1 + |d.files| + d.place[i][j], o);
    FromDataArea(d, d.place[i][j], o);
    DataAt(d, i, j, o);
  }

  lemma FromDataArea(d: Disk, block: nat, o: nat)
    requires |d.place| == |d.files|
    ensures DiskByte(d, 1 + |d.files| + block, o) == DataByte(d, block, o)
  {
  }

  // ---------------------------------------------------------------- the directory

  lemma EntryByteAt(d: Disk, i: nat, o: nat)
    requires DiskOk(d) && i < |d.dirs| <= 63 && o < 64
    ensures var k := 64 + 64 * i + o; k < |Build(d)| && Build(d)[k] == EntryByte(d.dirs[i], o)
  {
    hide Build;
    hide EntryByte;
    BuiltAt(d, 0, 64 + 64 * i + o);
    assert (64 * i + o) / 64 == i && (64 + 64 * i + o) % 64 == o;
  }

  lemma EntryIsNamed(d: Disk, i: nat)
    requires DiskOk(d) && i < |d.dirs|
    ensures |d.dirs| <= 63 && NameOk(d.dirs[i], |d.files|)
  {
  }

  lemma NameByteAt(d: Disk, i: nat, o: nat)
    requires DiskOk(d) && i < |d.dirs| <= 63 && o < 32
    ensures var k, name := 64 + 64 * i + o, d.dirs[i].name;
            k < |Build(d)| && Build(d)[k] == if o < |name| then name[o] else 0
  {
    hide Build;
    EntryByteAt(d, i, o);
  }

  /** A 32-byte field that holds a string and then NULs. */
  ghost predicate FieldHolds(s: seq<byte>, p: nat, name: seq<byte>) {
    && p + 32 <= |s| && |name| <= 32
    && forall k :: p <= k < p + 32 ==> s[k] == if k - p < |name| then name[k - p] else 0
  }

  lemma FieldIsString(s: seq<byte>, p: nat, name: seq<byte>)
    requires FieldHolds(s, p, name) && 0 !in name
    ensures CString(s, p, 32) == name
  {
    assert s[p..p + |name|] == name;
    assert |name| < 32 ==> s[p + |name|] == 0;
    hide FieldHolds;
    CStringIsUnique(s, p, 32, name);
  }

  lemma NameRoundTrip(d: Disk, i: nat)
    requires DiskOk(d) && i < |d.dirs|
    ensures EntryName(Build(d), i) == d.dirs[i].name
  {
    hide Build;
    hide CString;
    EntryIsNamed(d, i);
    hide DiskOk;
    var img, p, name := Build(d), 64 + 64 * i, d.dirs[i].name;
    NameByteAt(d, i, 31);
    forall k | p <= k < p + 32
      ensures img[k] == if k - p < |name| then name[k - p] else 0
    {
      NameByteAt(d, i, k - p);
    }
    FieldIsString(img, p, name);
  }

  lemma EntryWord(d: Disk, i: nat, at: nat, v: nat)
    requires DiskOk(d) && i < |d.dirs| && v < 0x1_0000_0000
    requires (at == 32 && v == d.dirs[i].kind) || (at == 36 && v == d.dirs[i].inode)
    ensures 64 + 64 * i + at + 4 <= |Build(d)| && Word(Build(d), 64 + 64 * i + at) == v
    ensures Build(d)[64 + 64 * i + at + 3] == WordByte(v, 3)
  {
    hide Build;
    hide WordByte;
    EntryIsNamed(d, i);
    hide DiskOk;
    EntryByteAt(d, i, at);
    EntryByteAt(d, i, at + 1);
    EntryByteAt(d, i, at + 2);
    EntryByteAt(d, i, at + 3);
    WordIs(Build(d), 64 + 64 * i + at, v);
  }

  /** Every entry of the image has the name, type and inode that were put in. */
  lemma EntryRoundTrip(d: Disk, i: nat)
    requires DiskOk(d) && i < |d.dirs|
    ensures EntryName(Build(d), i) == d.dirs[i].name && i < 63
    ensures Entry(Build(d), i).fileType == d.dirs[i].kind && Entry(Build(d), i).inode == d.dirs[i].inode
    ensures NameEnds(Build(d), i)
  {
    hide Build;
    hide Word;
    EntryIsNamed(d, i);
    NameRoundTrip(d, i);
    EntryWord(d, i, 32, d.dirs[i].kind);
    EntryWord(d, i, 36, d.dirs[i].inode);
    SmallWord(d.dirs[i].kind);
  }

  lemma SmallWord(v: nat)
    requires v < 256
    ensures WordByte(v, 3) == 0
  {
    assert WordByte(v, 3) == WordByte(0, 2) == WordByte(0, 1) == 0;
  }

  lemma BuiltWellFormed(d: Disk)
    requires DiskOk(d)
    ensures NumDirs(Build(d)) == |d.dirs| && WellFormed(Build(d))
  {
    hide Build;
    hide EntryName;
    hide NameEnds;
    hide Readable;
    var img := Build(d);
    BuiltCounts(d);
    forall i | 0 <= i < |d.dirs|
      ensures EntryWellFormed(img, i) && EntryName(img, i) == d.dirs[i].name
    {
      EntryRoundTrip(d, i);
      EntryIsNamed(d, i);
      if d.dirs[i].kind == 2 {
        BuiltReadable(d, d.dirs[i].inode);
      }
    }
    assert forall i, j :: 0 <= i < j < |d.dirs| ==> d.dirs[i].name != d.dirs[j].name;
    hide EntryWellFormed;
  }

  /** Looking a name up finds the entry that was put in under it, and only names put in are found. */
  lemma LookupRoundTrip(d: Disk, name: seq<byte>)
    requires DiskOk(d)
    ensures Listed(Build(d), name) <==> exists i :: 0 <= i < |d.dirs| && d.dirs[i].name == name
    ensures forall i :: 0 <= i < |d.dirs| && d.dirs[i].name == name ==>
              Listed(Build(d), name) && IndexOf(Build(d), name) == i
  {
    hide Build;
    hide EntryName;
    BuiltWellFormed(d);
    hide WellFormed;
    forall i | 0 <= i < |d.dirs|
      ensures EntryName(Build(d), i) == d.dirs[i].name
    {
      EntryRoundTrip(d, i);
    }
    forall i | 0 <= i < |d.dirs| && d.dirs[i].name == name
      ensures Listed(Build(d), name) && IndexOf(Build(d), name) == i
    {
      NamesAnEntry(Build(d), i);
    }
    hide DiskOk;
  }

  // ---------------------------------------------------------------- open and read

  /**
   Opening a file by the name it was put in under and reading `n` bytes gives the first `n` bytes that were
   put in, or all of them; a second read of `m` bytes gives what follows.
   */
  lemma OpenAndReadRoundTrip(d: Disk, i: nat, t: Table, n: nat, m: nat)
    requires DiskOk(d) && i < |d.dirs| && d.dirs[i].kind == 2 && d.dirs[i].inode < |d.files|
    requires TableOk(Build(d), t) && LowestFree(t, 2) < 8 && n < 0x8000_0000 && m < 0x8000_0000
    ensures WellFormed(Build(d))
    ensures var file := d.files[d.dirs[i].inode];
            var (t1, fd) := OpenStep(Build(d), t, d.dirs[i].name);
            && fd == LowestFree(t, 2) && TableOk(Build(d), t1)
            && var (t2, first) := ReadStep(Build(d), t1, fd, n, []);
               && TableOk(Build(d), t2) && first == Got(file[..Min(n, |file|)])
               && ReadStep(Build(d), t2, fd, m, []).1 == Got(file[Min(n, |file|)..Min(n + m, |file|)])
  {
    hide Build;
    hide EntryName;
    hide Readable;
    hide Contents;
    var img, file := Build(d), d.files[d.dirs[i].inode];
    BuiltWellFormed(d);
    BuiltCounts(d);
    hide WellFormed;
    LookupRoundTrip(d, d.dirs[i].name);
    EntryRoundTrip(d, i);
    ContentsRoundTrip(d, d.dirs[i].inode);
    hide DiskOk;
    var t1, fd := OpenStep(img, t, d.dirs[i].name).0, LowestFree(t, 2);
    hide LowestFree;
    assert t1 == t[fd := Fd(FileOps, d.dirs[i].inode, 0, 1)];
    hide OpenStep;
    hide Listed;
    hide Entry;
    AdvanceKeepsTable(img, t1, fd, n);
    var t2 := ReadStep(img, t1, fd, n, []).0;
    assert t2[fd].pos == Min(n, |file|);
  }

  /** What opening an entry gives, by its type: the clock, the directory, a file; any other type opens nothing. */
  lemma OpenByKind(d: Disk, i: nat, t: Table)
    requires DiskOk(d) && i < |d.dirs| && LowestFree(t, 2) < 8
    ensures WellFormed(Build(d))
    ensures var fd := LowestFree(t, 2);
            OpenStep(Build(d), t, d.dirs[i].name) ==
            if d.dirs[i].kind == 0 then (t[fd := Fd(RtcOps, 0, 0, 1)], fd)
            else if d.dirs[i].kind == 1 then (t[fd := Fd(DirectoryOps, 0, 0, 1)], fd)
            else if d.dirs[i].kind == 2 then (t[fd := Fd(FileOps, d.dirs[i].inode, 0, 1)], fd)
            else (t, 0)
  {
    hide Build;
    hide EntryName;
    BuiltWellFormed(d);
    hide WellFormed;
    LookupRoundTrip(d, d.dirs[i].name);
    EntryRoundTrip(d, i);
    hide DiskOk;
    hide LowestFree;
  }

  /** Reading the clock gives nothing; reading the directory at position `k` gives the name of entry `k`. */
  lemma DirectoryRoundTrip(d: Disk, t: Table, fd: int, k: nat, n: nat)
    requires DiskOk(d) && TableOk(Build(d), t) && 2 <= fd < 8 && 32 <= n < 0x8000_0000 && k < |d.dirs|
    ensures t[fd] == Fd(DirectoryOps, 0, k, 1) ==>
              ReadStep(Build(d), t, fd, n, []) == (t[fd := Fd(DirectoryOps, 0, k + 1, 1)], Got(d.dirs[k].name))
    ensures t[fd] == Fd(RtcOps, 0, 0, 1) ==> ReadStep(Build(d), t, fd, n, []) == (t, Got([]))
  {
    hide Build;
    hide EntryName;
    EntryIsNamed(d, k);
    NameRoundTrip(d, k);
    hide DiskOk;
    assert t[fd := t[fd]] == t;
    assert Slice(d.dirs[k].name, 0, n) == d.dirs[k].name;
  }
}
