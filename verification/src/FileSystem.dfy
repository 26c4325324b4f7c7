/**
 The read-only file system image: one boot block with the directory, one block per inode, then the
 data blocks. The image is the flat byte sequence the boot loader left in memory, and every access
 is the pointer arithmetic of the kernel code.
 */
module FileSystem {
  import opened Bytes
  import opened CStrings
  import opened Memory

  const BLOCK_SIZE := 4096
  const NAME_SIZE := 32
  const NUM_DIR := 63
  const DENTRY_SIZE := 64
  const MAX_BLOCKS := 1023

  const TYPE_RTC := 0
  const TYPE_DIRECTORY := 1
  const TYPE_FILE := 2

  type Image = img: seq<byte> | |img| >= 2 * BLOCK_SIZE witness seq(2 * 4096, _ => 0)

  datatype Dentry = Dentry(name: seq<byte>, fileType: uint32, inode: uint32)

  function NumDirs(img: Image): uint32 { Word(img, 0) }
  function NumInodes(img: Image): uint32 { Word(img, 4) }

  /** Where directory entry `i` starts; entry 63 would already lie behind the boot block. */
  function DentryAt(i: nat): nat { 64 + DENTRY_SIZE * i }

  function InodeAt(inode: nat): nat { (inode + 1) * BLOCK_SIZE }

  // ---------------------------------------------------------------- file contents

  /** The inode record at `inode` lies in the image and lists only blocks that do. */
  ghost predicate Readable(img: Image, inode: nat) {
    && InodeAt(inode + 1) <= |img|
    && FileLength(img, inode) <= MAX_BLOCKS * BLOCK_SIZE
    && forall j :: 0 <= j < BlockCount(img, inode) ==> BlockAt(img, BlockNumber(img, inode, j)) + BLOCK_SIZE <= |img|
  }

  function FileLength(img: Image, inode: nat): (n: uint32)
    requires InodeAt(inode + 1) <= |img|
  {
    Word(img, InodeAt(inode))
  }

  /** Number of blocks the file occupies, the last one possibly in part. */
  function BlockCount(img: Image, inode: nat): (n: nat)
    requires InodeAt(inode + 1) <= |img|
    requires FileLength(img, inode) <= MAX_BLOCKS * BLOCK_SIZE
    ensures n <= MAX_BLOCKS
    ensures (n - 1) * BLOCK_SIZE < FileLength(img, inode) <= n * BLOCK_SIZE || n == FileLength(img, inode) == 0
  {
    (FileLength(img, inode) + BLOCK_SIZE - 1) / BLOCK_SIZE
  }

  function BlockNumber(img: Image, inode: nat, j: nat): (n: uint32)
    requires InodeAt(inode + 1) <= |img| && j < MAX_BLOCKS
  {
    Word(img, InodeAt(inode) + 4 + 4 * j)
  }

  function BlockAt(img: Image, block: nat): nat { (1 + NumInodes(img) + block) * BLOCK_SIZE }

  /** The first `n` listed blocks, one after the other. */
  ghost function Joined(img: Image, inode: nat, n: nat): (r: seq<byte>)
    requires Readable(img, inode) && n <= BlockCount(img, inode)
    ensures |r| == n * BLOCK_SIZE
  {
    if n == 0 then [] else
      var b := BlockAt(img, BlockNumber(img, inode, n - 1));
      Joined(img, inode, n - 1) + img[b..b + BLOCK_SIZE]
  }

  /** A file is the concatenation of its blocks in listed order, cut at the recorded length. */
  ghost function Contents(img: Image, inode: nat): (r: seq<byte>)
    requires Readable(img, inode)
    ensures |r| == FileLength(img, inode)
  {
    Joined(img, inode, BlockCount(img, inode))[..FileLength(img, inode)]
  }

  /** Byte `k` of the joined blocks is found by dividing: block k / 4096, offset k % 4096. */
  lemma {:induction false} JoinedAt(img: Image, inode: nat, n: nat, k: nat)
    requires Readable(img, inode) && n <= BlockCount(img, inode)
    requires k < n * BLOCK_SIZE
    ensures k / BLOCK_SIZE < n
    ensures Joined(img, inode, n)[k] == img[BlockAt(img, BlockNumber(img, inode, k / BLOCK_SIZE)) + k % BLOCK_SIZE]
    decreases n
  {
    if k < (n - 1) * BLOCK_SIZE {
      JoinedAt(img, inode, n - 1, k);
    } else {
      assert k / BLOCK_SIZE == n - 1;
    }
  }

  /** One byte of a file, fetched through the block list. */
  method FetchByte(img: Image, inode: nat, offset: nat) returns (b: byte)
    requires Readable(img, inode) && offset < FileLength(img, inode)
    ensures b == Contents(img, inode)[offset]
  {
    JoinedAt(img, inode, BlockCount(img, inode), offset);
    var block := BlockNumber(img, inode, offset / BLOCK_SIZE);
    b := img[BlockAt(img, block) + offset % BLOCK_SIZE];
  }

  /**
   Copies the bytes of a file from `offset` on into the caller's buffer. An inode number above the
   count is refused; the number equal to the count passes the test and is read like any other record.
   */
  method ReadData(img: Image, inode: uint32, offset: uint32, buf: array<byte>, at: nat, length: uint32)
    returns (r: int)
    requires inode <= NumInodes(img) ==>
               Readable(img, inode) && at + |Slice(Contents(img, inode), offset, length)| <= buf.Length
    modifies buf
    ensures inode > NumInodes(img) ==> r == -1 && buf[..] == old(buf[..])
    ensures inode <= NumInodes(img) ==>
              r == |Slice(Contents(img, inode), offset, length)| &&
              buf[..] == old(buf[..at]) + Slice(Contents(img, inode), offset, length) + old(buf[at + r..])
  {
    if inode > NumInodes(img) {
      return -1;
    }
    ghost var got, before := Slice(Contents(img, inode), offset, length), buf[..];
    StoreEnds(before, at, got);
    hide Stored;
    hide Contents;
    hide Readable;
    var i := 0;
    while offset + i < FileLength(img, inode) && i < length
      invariant 0 <= i <= |got| && buf[..] == Stored(before, at, got[..i])
      decreases |got| - i
    {
      var b := FetchByte(img, inode, offset + i);
      StoreOneMore(before, at, got, i);
      StoreByte(buf, at + i, b);
      i := i + 1;
    }
    assert i == |got|;
    StoredIs(before, at, got);
    return i;
  }

  // ---------------------------------------------------------------- directory

  /** The name a directory entry carries: up to 32 bytes, with a terminator only when shorter. */
  ghost function EntryName(img: Image, i: nat): (name: seq<byte>)
    ensures |name| <= NAME_SIZE
  {
    CString(img, DentryAt(i), NAME_SIZE)
  }

  ghost function Entry(img: Image, i: nat): (d: Dentry)
    requires i <= NUM_DIR
  {
    Dentry(Padded(EntryName(img, i), NAME_SIZE), Word(img, DentryAt(i) + 32), Word(img, DentryAt(i) + 36))
  }

  /** At most 63 entries, distinct nonempty names, types in one byte, files with readable inodes. */
  ghost predicate WellFormed(img: Image) {
    && NumDirs(img) <= NUM_DIR
    && (forall i :: 0 <= i < NumDirs(img) ==> EntryWellFormed(img, i))
    && (forall i, j :: 0 <= i < j < NumDirs(img) ==> EntryName(img, i) != EntryName(img, j))
  }

  /** Every name of the directory is ended by its own entry, at the latest by the type field. */
  ghost predicate NamesEnd(img: Image) {
    NumDirs(img) <= NUM_DIR && forall i :: 0 <= i < NumDirs(img) ==> NameEnds(img, i)
  }

  ghost predicate NameEnds(img: Image, i: nat)
    requires i < NUM_DIR
  {
    img[DentryAt(i) + 35] == NUL
  }

  ghost predicate EntryWellFormed(img: Image, i: nat)
    requires i < NUM_DIR
  {
    && EntryName(img, i) != []
    && NameEnds(img, i)
    && (Entry(img, i).fileType == TYPE_FILE ==>
          Entry(img, i).inode < NumInodes(img) && Readable(img, Entry(img, i).inode))
  }

  /** Index 63 is let through although the table ends at 62. */
  method ReadDentryByIndex(img: Image, index: uint32) returns (ok: bool, dentry: Dentry)
    ensures ok <==> index <= NUM_DIR
    ensures ok ==> dentry == Entry(img, index)
  {
    if index > NUM_DIR {
      return false, Dentry([], 0, 0);
    }
    var name := Strncpy(img, DentryAt(index), NAME_SIZE);
    return true, Dentry(name, Word(img, DentryAt(index) + 32), Word(img, DentryAt(index) + 36));
  }

  /** Some entry of the directory is called `name`. */
  ghost predicate Listed(img: Image, name: seq<byte>) {
    exists i :: 0 <= i < NumDirs(img) && EntryName(img, i) == name
  }

  /** The first entry called `name`. */
  ghost function IndexOf(img: Image, name: seq<byte>): (i: nat)
    requires Listed(img, name)
    ensures i < NumDirs(img) && EntryName(img, i) == name
    ensures forall k :: 0 <= k < i ==> EntryName(img, k) != name
  {
    FirstNamed(img, name, 0)
  }

  ghost function FirstNamed(img: Image, name: seq<byte>, from: nat): (i: nat)
    requires exists k :: from <= k < NumDirs(img) && EntryName(img, k) == name
    ensures from <= i < NumDirs(img) && EntryName(img, i) == name
    ensures forall k :: from <= k < i ==> EntryName(img, k) != name
    decreases NumDirs(img) - from
  {
    if EntryName(img, from) == name then from else FirstNamed(img, name, from + 1)
  }

  lemma WellFormedNamesEnd(img: Image)
    requires WellFormed(img)
    ensures NamesEnd(img)
  {
    forall i | 0 <= i < NumDirs(img)
      ensures NameEnds(img, i)
    {
      assert EntryWellFormed(img, i);
    }
  }

  lemma NamesAnEntry(img: Image, i: nat)
    requires WellFormed(img) && i < NumDirs(img)
    ensures Listed(img, EntryName(img, i)) && IndexOf(img, EntryName(img, i)) == i
  {
    var k := IndexOf(img, EntryName(img, i));
    assert k < i || k == i || i < k;
  }

  /** Compares over the longer of the two strings, but never more than the 32 bytes of the field. */
  method SameName(img: Image, i: nat, fname: seq<byte>, nameLength: nat) returns (same: bool)
    requires i < NUM_DIR && NameEnds(img, i)
    requires nameLength < |fname| && nameLength <= NAME_SIZE
    requires fname[nameLength] == NUL && NUL !in fname[..nameLength]
    ensures same <==> EntryName(img, i) == fname[..nameLength]
  {
    var entryLength := Strlen(img, DentryAt(i));
    var bound := if nameLength > entryLength then nameLength else entryLength;
    bound := if bound > NAME_SIZE then NAME_SIZE else bound;
    var difference := Strncmp(fname, 0, img, DentryAt(i), bound);
    CStringIsUnique(fname, 0, bound, fname[..nameLength]);
    EntryNameWithin(img, i, entryLength, bound);
    return difference == 0;
  }

  /**
   Linear search with a bounded comparison. It finds the first entry of that name, also when the name
   fills all 32 bytes and the entry has no terminator, and fails exactly when no entry has the name.
   */
  method ReadDentryByName(img: Image, fname: seq<byte>) returns (ok: bool, dentry: Dentry)
    requires NamesEnd(img) && Terminated(fname, 0)
    ensures ok <==> Listed(img, AsString(fname))
    ensures ok ==> dentry == Entry(img, IndexOf(img, AsString(fname)))
  {
    var nameLength := Strlen(fname, 0);
    ghost var name := fname[..nameLength];
    assert AsString(fname) == name by { CStringIsUnique(fname, 0, |fname|, name); }
    if nameLength > NAME_SIZE {
      return false, Dentry([], 0, 0);
    }
    var i := FindName(img, fname, nameLength);
    if i == NumDirs(img) {
      return false, Dentry([], 0, 0);
    }
    FirstIs(img, name, i);
    ok, dentry := ReadDentryByIndex(img, i);
  }

  lemma FirstIs(img: Image, name: seq<byte>, i: nat)
    requires i < NumDirs(img) && EntryName(img, i) == name && forall k :: 0 <= k < i ==> EntryName(img, k) != name
    ensures Listed(img, name) && IndexOf(img, name) == i
  {
    var k := IndexOf(img, name);
    assert k < i || k == i || i < k;
  }

  method FindName(img: Image, fname: seq<byte>, nameLength: nat) returns (i: nat)
    requires NamesEnd(img)
    requires nameLength < |fname| && nameLength <= NAME_SIZE
    requires fname[nameLength] == NUL && NUL !in fname[..nameLength]
    ensures i <= NumDirs(img)
    ensures i < NumDirs(img) ==> EntryName(img, i) == fname[..nameLength]
    ensures forall k :: 0 <= k < i ==> EntryName(img, k) != fname[..nameLength]
  {
    i := 0;
    while i < NumDirs(img)
      invariant 0 <= i <= NumDirs(img)
      invariant forall k :: 0 <= k < i ==> EntryName(img, k) != fname[..nameLength]
    {
      var same := SameName(img, i, fname, nameLength);
      if same {
        return;
      }
      i := i + 1;
    }
  }

  /** A bound that covers the entry's string (or all 32 bytes) compares the whole entry name. */
  lemma EntryNameWithin(img: Image, i: nat, length: nat, bound: nat)
    requires i < NUM_DIR && DentryAt(i) + length < |img|
    requires img[DentryAt(i) + length] == NUL && NUL !in img[DentryAt(i)..DentryAt(i) + length]
    requires bound <= NAME_SIZE && (length <= bound || bound == NAME_SIZE)
    ensures CString(img, DentryAt(i), bound) == EntryName(img, i)
  {
    var p := DentryAt(i);
    var n := Min(length, NAME_SIZE);
    var name := img[p..p + n];
    assert forall k :: 0 <= k < n ==> name[k] == img[p..p + length][k];
    CStringIsUnique(img, p, NAME_SIZE, name);
    CStringIsUnique(img, p, bound, name);
  }
}
