/** Loading a program image: the file is brought in through a 100-byte stack buffer. */
module Loader {
  import opened Bytes
  import opened FileSystem
  import opened Memory

  /** Where a program is loaded in its own address space. */
  const VIRTUAL_ADDR := 0x0804_8000
  const CHUNK := 100

  /** Memory when the first `n` bytes of `file` are in place at `base` and `stack` is scratch space. */
  ghost predicate Loaded(now: seq<byte>, before: seq<byte>, file: seq<byte>, n: nat, base: nat, stack: nat)
    requires n <= |file|
  {
    |now| == |before| &&
    forall k :: 0 <= k < |now| && !(stack <= k < stack + CHUNK) ==> now[k] == LoadedByte(before, file, n, base, k)
  }

  ghost function LoadedByte(before: seq<byte>, file: seq<byte>, n: nat, base: nat, k: nat): byte
    requires n <= |file| && k < |before|
  {
    if base <= k < base + n then file[k - base] else before[k]
  }

  /** A chunk read into the scratch buffer and copied on extends the loaded part. */
  lemma ChunkLoaded(before: seq<byte>, m0: seq<byte>, m1: seq<byte>, m2: seq<byte>, file: seq<byte>, n: nat,
      c: nat, base: nat, stack: nat)
    requires n + c <= |file| && c <= CHUNK && base + |file| <= |before| && stack + CHUNK <= |before|
    requires stack + CHUNK <= base || base + |file| <= stack
    requires Loaded(m0, before, file, n, base, stack)
    requires |m1| == |m0| && m1 == m0[..stack] + file[n..n + c] + m0[stack + c..]
    requires Copied(m2, m1, base + n, stack, c)
    ensures Loaded(m2, before, file, n + c, base, stack)
  {
    forall k | 0 <= k < |m2| && !(stack <= k < stack + CHUNK)
      ensures m2[k] == LoadedByte(before, file, n + c, base, k)
    {
      assert m2[k] == ByteAfter(m1, base + n, stack, c, k);
      if base + n <= k < base + n + c {
        var i := k - base - n;
        assert m1[stack + i] == file[n..n + c][i] == file[n + i];
      } else {
        assert m1[k] == m0[k];
      }
    }
  }

  /**
   `load_file`: terminates, and leaves the whole file at the load address and everything else, except
   its own scratch buffer, as it was.
   */
  method LoadFile(img: Image, inode: uint32, mem: array<byte>, base: nat, stack: nat)
    requires inode <= NumInodes(img) && Readable(img, inode)
    requires base + FileLength(img, inode) <= mem.Length && stack + CHUNK <= mem.Length
    requires stack + CHUNK <= base || base + FileLength(img, inode) <= stack
    modifies mem
    ensures Loaded(mem[..], old(mem[..]), Contents(img, inode), FileLength(img, inode), base, stack)
  {
    hide Loaded;
    hide Copied;
    hide Contents;
    ghost var before, file := mem[..], Contents(img, inode);
    var readSoFar, length := 0, FileLength(img, inode);
    NoneLoaded(before, file, base, stack);
    while readSoFar != length
      invariant 0 <= readSoFar <= length && Loaded(mem[..], before, file, readSoFar, base, stack)
      decreases length - readSoFar
    {
      ghost var m0 := mem[..];
      var bytesRead := ReadData(img, inode, readSoFar, mem, stack, CHUNK);
      ghost var m1 := mem[..];
      ForwardOrApart(base, stack, readSoFar, bytesRead, length);
      Memcpy(mem, base + readSoFar, stack, bytesRead);
      ChunkLoaded(before, m0, m1, mem[..], file, readSoFar, bytesRead, base, stack);
      readSoFar := readSoFar + bytesRead;
    }
  }

  lemma NoneLoaded(before: seq<byte>, file: seq<byte>, base: nat, stack: nat)
    ensures Loaded(before, before, file, 0, base, stack)
  {
  }

  lemma ForwardOrApart(base: nat, stack: nat, n: nat, c: nat, length: nat)
    requires c <= CHUNK && n + c <= length
    requires stack + CHUNK <= base || base + length <= stack
    ensures ForwardSafe(base + n, stack, c)
  {
  }
}
