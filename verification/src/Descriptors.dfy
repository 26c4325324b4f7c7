/**
 The file-descriptor table of one process and the open, close and read system calls on it.
 `Table` and the `...Step` functions are the specification; class `Pcb` is the kernel code.
 */
module Descriptors {
  import opened Bytes
  import opened CStrings
  import opened FileSystem

  const FD_COUNT := 8

  datatype Ops = NoOps | TerminalInput | TerminalOutput | RtcOps | DirectoryOps | FileOps
  datatype Fd = Fd(ops: Ops, inode: int, pos: int, flags: int)

  type Table = t: seq<Fd> | |t| == FD_COUNT witness seq(8, _ => Fd(NoOps, 0, 0, 0))

  /** What a read call hands back: the bytes it stored, or -1. */
  datatype Delivery = Failed | Got(bytes: seq<byte>)

  const CLOSED := Fd(NoOps, 0, 0, 0)
  const STDIN := Fd(TerminalInput, 0, 0, 1)
  const STDOUT := Fd(TerminalOutput, 0, 0, 1)

  function FreshTable(): Table {
    [STDIN, STDOUT, CLOSED, CLOSED, CLOSED, CLOSED, CLOSED, CLOSED]
  }

  // ---------------------------------------------------------------- specification

  /** The first free descriptor at or after `i`, or 8. */
  function LowestFree(t: Table, i: nat): (fd: nat)
    requires i <= FD_COUNT
    ensures i <= fd <= FD_COUNT
    ensures fd < FD_COUNT ==> t[fd].flags == 0
    ensures forall k :: i <= k < fd ==> t[k].flags != 0
    decreases FD_COUNT - i
  {
    if i == FD_COUNT || t[i].flags == 0 then i else LowestFree(t, i + 1)
  }

  ghost function Opened(d: Dentry): (fd: Fd) {
    if d.fileType == TYPE_RTC then Fd(RtcOps, 0, 0, 1)
    else if d.fileType == TYPE_DIRECTORY then Fd(DirectoryOps, 0, 0, 1)
    else Fd(FileOps, d.inode, 0, 1)
  }

  /** The directory is consulted only when a descriptor is free; an unknown type yields 0 and opens nothing. */
  ghost function OpenStep(img: Image, t: Table, name: seq<byte>): (Table, int)
    requires WellFormed(img)
  {
    var i := LowestFree(t, 2);
    if i == FD_COUNT || !Listed(img, name) then (t, -1)
    else
      var d := Entry(img, IndexOf(img, name));
      if d.fileType > TYPE_FILE then (t, 0) else (t[i := Opened(d)], i)
  }

  function CloseStep(t: Table, fd: int): (Table, int) {
    if fd < 2 || fd >= FD_COUNT || t[fd].flags == 0 then (t, -1) else (t[fd := t[fd].(flags := 0)], 0)
  }

  /** The count an operation works with: file code takes it as unsigned, the directory's loop as signed. */
  function Count(ops: Ops, nbytes: int32): (n: nat) {
    if nbytes >= 0 then nbytes else if ops == FileOps then nbytes + 0x1_0000_0000 else 0
  }

  /** `typed` is what the keyboard side would hand over on descriptor 0. */
  ghost function Delivered(img: Image, f: Fd, n: nat, typed: seq<byte>): Delivery
    requires FdOk(img, f)
  {
    match f.ops
    case TerminalInput => Got(typed)
    case RtcOps => Got([])
    case DirectoryOps => if f.pos > NUM_DIR then Failed else Got(Slice(EntryName(img, f.pos), 0, n))
    case FileOps => Got(Slice(Contents(img, f.inode), f.pos, n))
    case _ => Failed
  }

  ghost function Advanced(img: Image, f: Fd, n: nat): Fd
    requires FdOk(img, f)
  {
    match f.ops
    case DirectoryOps => if f.pos > NUM_DIR then f else f.(pos := f.pos + 1)
    case FileOps => f.(pos := f.pos + |Slice(Contents(img, f.inode), f.pos, n)|)
    case _ => f
  }

  ghost function ReadStep(img: Image, t: Table, fd: int, nbytes: int32, typed: seq<byte>): (Table, Delivery)
    requires TableOk(img, t)
  {
    if fd < 0 || fd >= FD_COUNT || t[fd].flags == 0 then (t, Failed) else
      var n := Count(t[fd].ops, nbytes);
      (t[fd := Advanced(img, t[fd], n)], Delivered(img, t[fd], n, typed))
  }

  /** A file descriptor names a readable inode and stands inside the file. */
  ghost predicate FdOk(img: Image, f: Fd) {
    match f.ops
    case FileOps => 0 <= f.inode < NumInodes(img) && Readable(img, f.inode) && 0 <= f.pos <= |Contents(img, f.inode)|
    case DirectoryOps => 0 <= f.pos <= NUM_DIR + 1
    case NoOps => false
    case _ => true
  }

  /** Descriptors 0 and 1 are the terminal and stay open; every other open one is usable. */
  ghost predicate TableOk(img: Image, t: Table) {
    && t[0] == STDIN && t[1] == STDOUT
    && forall k :: 2 <= k < FD_COUNT && t[k].flags != 0 ==>
         t[k].ops != TerminalInput && t[k].ops != TerminalOutput && FdOk(img, t[k])
  }

  /** The caller's buffer has room for what is delivered; a directory always stores 32 bytes. */
  ghost predicate Room(img: Image, t: Table, fd: int, nbytes: int32, typed: seq<byte>, size: int)
    requires TableOk(img, t)
  {
    size >= 0 && (0 <= fd < FD_COUNT && t[fd].flags != 0 ==>
      match Delivered(img, t[fd], Count(t[fd].ops, nbytes), typed)
      case Failed => true
      case Got(bytes) => (if t[fd].ops == DirectoryOps then NAME_SIZE else |bytes|) <= size)
  }

  lemma AdvanceKeepsTable(img: Image, t: Table, fd: int, n: nat)
    requires TableOk(img, t) && 0 <= fd < FD_COUNT && t[fd].flags != 0
    ensures TableOk(img, t[fd := Advanced(img, t[fd], n)])
  {
  }

  // ---------------------------------------------------------------- the kernel's code

  class Pcb {
    const img: Image
    const fds: array<Fd>

    ghost predicate Valid()
      reads fds
    {
      fds.Length == FD_COUNT && WellFormed(img) && TableOk(img, fds[..])
    }

    constructor (img: Image)
      requires WellFormed(img)
      ensures Valid() && fresh(fds) && this.img == img
      ensures fds[..] == FreshTable()
    {
      var table := new Fd[8](_ => STDIN);
      for i := 0 to 8
        invariant forall k :: 0 <= k < i ==> table[k] == CLOSED
      {
        table[i] := CLOSED;
      }
      table[0] := STDIN;
      table[1] := STDOUT;
      this.img := img;
      fds := table;
      new;
      assert fds[..] == FreshTable();
    }

    method Open(filename: seq<byte>) returns (ret: int)
      requires Valid() && Terminated(filename, 0)
      modifies fds
      ensures Valid()
      ensures (fds[..], ret) == OpenStep(img, old(fds[..]), AsString(filename))
    {
      var free := -1;
      var dentry;
      var i := 2;
      while i < FD_COUNT
        invariant 2 <= i <= FD_COUNT && free == -1
        invariant LowestFree(fds[..], 2) == LowestFree(fds[..], i)
      {
        if fds[i].flags == 0 {
          var ok;
          WellFormedNamesEnd(img);
          ok, dentry := ReadDentryByName(img, filename);
          if !ok {
            return -1;
          }
          free := i;
          break;
        }
        i := i + 1;
      }
      if free == -1 {
        return -1;
      }
      ghost var entry := IndexOf(img, AsString(filename));
      assert EntryWellFormed(img, entry);
      match dentry.fileType
      case 0 => fds[free] := Fd(RtcOps, 0, 0, 1); return free;
      case 1 => fds[free] := Fd(DirectoryOps, 0, 0, 1); return free;
      case 2 => fds[free] := Fd(FileOps, dentry.inode, 0, 1); return free;
      case _ => return 0;
    }

    method Close(fd: int) returns (ret: int)
      requires Valid()
      modifies fds
      ensures Valid()
      ensures (fds[..], ret) == CloseStep(old(fds[..]), fd)
    {
      if fd < 2 || fd >= FD_COUNT {
        return -1;
      }
      if fds[fd].flags == 0 {
        return -1;
      }
      fds[fd] := fds[fd].(flags := 0);
      return 0;
    }

    /** `file_read` */
    method FileRead(fd: int, buf: array<byte>, at: nat, nbytes: int32) returns (r: int)
      requires Valid() && 0 <= fd < FD_COUNT && fds[fd].flags != 0 && fds[fd].ops == FileOps
      requires at + |Slice(Contents(img, fds[fd].inode), fds[fd].pos, Count(FileOps, nbytes))| <= buf.Length
      modifies fds, buf
      ensures Valid()
      ensures fds[..] == old(fds[..])[fd := Advanced(img, old(fds[fd]), Count(FileOps, nbytes))]
      ensures var got := Slice(Contents(img, old(fds[fd].inode)), old(fds[fd].pos), Count(FileOps, nbytes));
              r == |got| && buf[..] == old(buf[..at]) + got + old(buf[at + r..])
    {
      hide Contents;
      hide Readable;
      hide WellFormed;
      ghost var n := Count(FileOps, nbytes);
      AdvanceKeepsTable(img, fds[..], fd, n);
      r := ReadData(img, fds[fd].inode, fds[fd].pos, buf, at, Count(FileOps, nbytes));
      fds[fd] := fds[fd].(pos := fds[fd].pos + r);
      assert fds[..] == old(fds[..])[fd := Advanced(img, old(fds[fd]), n)];
    }

    /** `dir_read`: always fills all 32 bytes of the caller's buffer, whatever `nbytes` says. */
    method DirRead(fd: int, buf: array<byte>, at: nat, nbytes: int32) returns (r: int)
      requires Valid() && 0 <= fd < FD_COUNT && fds[fd].flags != 0 && fds[fd].ops == DirectoryOps
      requires fds[fd].pos <= NUM_DIR ==> at + NAME_SIZE <= buf.Length
      modifies fds, buf
      ensures Valid()
      ensures fds[..] == old(fds[..])[fd := Advanced(img, old(fds[fd]), Count(DirectoryOps, nbytes))]
      ensures old(fds[fd].pos) > NUM_DIR ==> r == -1 && buf[..] == old(buf[..])
      ensures old(fds[fd].pos) <= NUM_DIR ==>
                var name := Slice(EntryName(img, old(fds[fd].pos)), 0, Count(DirectoryOps, nbytes));
                r == |name| &&
                buf[..] == old(buf[..at]) + Padded(name, NAME_SIZE) + old(buf[at + NAME_SIZE..])
    {
      var ok, dentry := ReadDentryByIndex(img, fds[fd].pos);
      if !ok {
        return -1;
      }
      AdvanceKeepsTable(img, fds[..], fd, Count(DirectoryOps, nbytes));
      fds[fd] := fds[fd].(pos := fds[fd].pos + 1);
      assert fds[..] == old(fds[..])[fd := Advanced(img, old(fds[fd]), Count(DirectoryOps, nbytes))];
      CStringShape(img, DentryAt(old(fds[fd].pos)), NAME_SIZE);
      r := CopyName(dentry.name, EntryName(img, old(fds[fd].pos)), buf, at, nbytes);
    }

    /** The `read` system call. */
    method Read(fd: int, buf: array<byte>, at: nat, nbytes: int32, typed: seq<byte>) returns (r: int)
      requires Valid() && Room(img, fds[..], fd, nbytes, typed, buf.Length - at)
      modifies fds, buf
      ensures Valid()
      ensures fds[..] == ReadStep(img, old(fds[..]), fd, nbytes, typed).0
      ensures r == -1 || (0 <= r && at + r <= buf.Length)
      ensures ReadStep(img, old(fds[..]), fd, nbytes, typed).1 == if r == -1 then Failed else Got(buf[at..at + r])
      ensures buf[..at] == old(buf[..at])
      ensures 0 <= fd < FD_COUNT && old(fds[fd].ops) in {FileOps, RtcOps} && r >= 0 ==>
                buf[at + r..] == old(buf[at + r..])
    {
      hide Contents;
      hide Readable;
      hide WellFormed;
      hide EntryName;
      if fd < 0 || fd >= FD_COUNT {
        return -1;
      }
      if fds[fd].flags == 0 {
        return -1;
      }
      match fds[fd].ops
      case TerminalInput =>
        StoreTyped(typed, buf, at);
        return |typed|;
      case RtcOps => return 0;
      case DirectoryOps => r := DirRead(fd, buf, at, nbytes);
      case FileOps => r := FileRead(fd, buf, at, nbytes);
      case _ => return -1;
    }
  }

  /** The copy loop of `terminal_read`. */
  method StoreTyped(typed: seq<byte>, buf: array<byte>, at: nat)
    requires at + |typed| <= buf.Length
    modifies buf
    ensures buf[..] == old(buf[..at]) + typed + old(buf[at + |typed|..])
  {
    for i := 0 to |typed|
      invariant forall k :: 0 <= k < |buf[..]| ==> buf[k] == if at <= k < at + i then typed[k - at] else old(buf[..])[k]
    {
      buf[at + i] := typed[i];
    }
  }

  /** The copy loop of `dir_read` over the padded 32-byte name. */
  method CopyName(padded: seq<byte>, ghost name: seq<byte>, buf: array<byte>, at: nat, nbytes: int32)
    returns (r: nat)
    requires |name| <= NAME_SIZE && NUL !in name && padded == Padded(name, NAME_SIZE)
    requires at + NAME_SIZE <= buf.Length
    modifies buf
    ensures r == |Slice(name, 0, Count(DirectoryOps, nbytes))|
    ensures buf[..] == old(buf[..at]) + Padded(Slice(name, 0, Count(DirectoryOps, nbytes)), NAME_SIZE)
                       + old(buf[at + NAME_SIZE..])
  {
    ghost var shown := Padded(Slice(name, 0, Count(DirectoryOps, nbytes)), NAME_SIZE);
    r := 0;
    for i := 0 to NAME_SIZE
      invariant r == Min(i, |Slice(name, 0, Count(DirectoryOps, nbytes))|)
      invariant forall k :: 0 <= k < |buf[..]| ==> buf[k] == if at <= k < at + i then shown[k - at] else old(buf[..])[k]
    {
      if padded[i] != NUL && i < nbytes {
        buf[at + i] := padded[i];
        r := r + 1;
      } else {
        buf[at + i] := NUL;
      }
    }
  }
}
