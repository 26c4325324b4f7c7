/** Byte moving on one flat memory: the word-at-a-time `memcpy` and the overlap-safe `memmove`. */
module Memory {
  import opened Bytes

  /** `now` is `before` with the `n` bytes at `src` copied to `dest`, all read before any was written. */
  ghost predicate Copied(now: seq<byte>, before: seq<byte>, dest: nat, src: nat, n: nat)
    requires dest + n <= |before| && src + n <= |before|
  {
    |now| == |before| &&
    forall k :: 0 <= k < |now| ==> now[k] == ByteAfter(before, dest, src, n, k)
  }

  ghost function ByteAfter(before: seq<byte>, dest: nat, src: nat, n: nat, k: nat): byte
    requires dest + n <= |before| && src + n <= |before| && k < |before|
  {
    if dest <= k < dest + n then before[src + (k - dest)] else before[k]
  }

  /** A forward copy is safe when the destination does not start inside the source. */
  ghost predicate ForwardSafe(dest: nat, src: nat, n: nat) {
    dest <= src || src + n <= dest
  }

  lemma CopyOneMore(now: seq<byte>, before: seq<byte>, dest: nat, src: nat, i: nat, n: nat)
    requires dest + n <= |before| && src + n <= |before| && i < n
    requires ForwardSafe(dest, src, n) && Copied(now, before, dest, src, i)
    ensures now[src + i] == before[src + i]
    ensures Copied(now[dest + i := now[src + i]], before, dest, src, i + 1)
  {
  }

  lemma CopiedAt(now: seq<byte>, before: seq<byte>, dest: nat, src: nat, n: nat, k: nat)
    requires dest + n <= |before| && src + n <= |before| && Copied(now, before, dest, src, n) && k < n
    ensures now[dest + k] == before[src + k]
  {
    assert now[dest + k] == ByteAfter(before, dest, src, n, dest + k);
  }

  lemma NoneCopied(before: seq<byte>, dest: nat, src: nat)
    requires dest <= |before| && src <= |before|
    ensures Copied(before, before, dest, src, 0)
  {
  }

  /** Byte by byte up to a 4-byte boundary of the destination, then words, then the remaining bytes. */
  method Memcpy(mem: array<byte>, dest: nat, src: nat, n: nat)
    requires dest + n <= mem.Length && src + n <= mem.Length && ForwardSafe(dest, src, n)
    modifies mem
    ensures Copied(mem[..], old(mem[..]), dest, src, n)
  {
    hide Copied;
    hide ForwardSafe;
    ghost var before := mem[..];
    NoneCopied(before, dest, src);
    var edi, esi, ecx := dest, src, n;
    while ecx != 0 && edi % 4 != 0
      invariant edi + ecx == dest + n && esi + ecx == src + n
      invariant Copied(mem[..], before, dest, src, n - ecx)
    {
      CopyOneMore(mem[..], before, dest, src, n - ecx, n);
      MoveByte(mem, edi, esi);
      edi, esi, ecx := edi + 1, esi + 1, ecx - 1;
    }
    var edx := ecx % 4;
    ecx := ecx / 4;
    while ecx != 0
      invariant edi + 4 * ecx + edx == dest + n && esi + 4 * ecx + edx == src + n
      invariant Copied(mem[..], before, dest, src, n - 4 * ecx - edx)
    {
      MoveWord(mem, edi, esi, before, dest, src, n - 4 * ecx - edx, n);
      edi, esi, ecx := edi + 4, esi + 4, ecx - 1;
    }
    while edx != 0
      invariant edi + edx == dest + n && esi + edx == src + n
      invariant Copied(mem[..], before, dest, src, n - edx)
    {
      CopyOneMore(mem[..], before, dest, src, n - edx, n);
      MoveByte(mem, edi, esi);
      edi, esi, edx := edi + 1, esi + 1, edx - 1;
    }
  }

  // ---------------------------------------------------------------- bytes stored one by one

  /** `before` with `s` stored at `at`. */
  ghost function Stored(before: seq<byte>, at: nat, s: seq<byte>): (r: seq<byte>)
    requires at + |s| <= |before|
    ensures |r| == |before|
  {
    before[..at] + s + before[at + |s|..]
  }

  lemma StoreOneMore(before: seq<byte>, at: nat, s: seq<byte>, i: nat)
    requires i < |s| && at + |s| <= |before|
    ensures Stored(before, at, s[..i])[at + i := s[i]] == Stored(before, at, s[..i + 1])
  {
    assert s[..i + 1] == s[..i] + [s[i]];
  }

  lemma StoreEnds(before: seq<byte>, at: nat, s: seq<byte>)
    requires at + |s| <= |before|
    ensures Stored(before, at, s[..0]) == before && s[..|s|] == s
  {
  }

  lemma StoredIs(before: seq<byte>, at: nat, s: seq<byte>)
    requires at + |s| <= |before|
    ensures Stored(before, at, s) == before[..at] + s + before[at + |s|..]
  {
  }

  lemma StoredPart(before: seq<byte>, at: nat, s: seq<byte>, lo: nat, hi: nat)
    requires at + |s| <= |before| && lo <= hi <= |before|
    requires (lo == at && hi == at + |s|) || hi <= at || at + |s| <= lo
    ensures Stored(before, at, s)[lo..hi] == if lo == at && hi == at + |s| then s else before[lo..hi]
  {
  }

  method StoreByte(buf: array<byte>, k: nat, b: byte)
    requires k < buf.Length
    modifies buf
    ensures buf[..] == old(buf[..])[k := b]
  {
    buf[k] := b;
  }

  // ---------------------------------------------------------------- single moves

  method MoveByte(mem: array<byte>, edi: nat, esi: nat)
    requires edi < mem.Length && esi < mem.Length
    modifies mem
    ensures mem[..] == old(mem[..])[edi := old(mem[esi])]
  {
    mem[edi] := mem[esi];
  }

  /** One `movsl`: the four bytes are loaded before any is stored. */
  method MoveWord(mem: array<byte>, edi: nat, esi: nat, ghost before: seq<byte>, ghost dest: nat, ghost src: nat,
                  ghost i: nat, ghost n: nat)
    requires |before| == mem.Length && dest + n <= mem.Length && src + n <= mem.Length && i + 4 <= n
    requires edi == dest + i && esi == src + i
    requires ForwardSafe(dest, src, n) && Copied(mem[..], before, dest, src, i)
    modifies mem
    ensures Copied(mem[..], before, dest, src, i + 4)
  {
    var b0, b1, b2, b3 := mem[esi], mem[esi + 1], mem[esi + 2], mem[esi + 3];
    assert b0 == before[src + i] && b1 == before[src + i + 1] && b2 == before[src + i + 2] &&
        b3 == before[src + i + 3] by {
      CopyOneMore(mem[..], before, dest, src, i, n);
      assert forall k :: src + i <= k < src + n ==> ByteAfter(before, dest, src, i, k) == before[k];
    }
    mem[edi], mem[edi + 1], mem[edi + 2], mem[edi + 3] := b0, b1, b2, b3;
  }

  /** Upwards when the source does not lie below the destination, downwards otherwise. */
  method Memmove(mem: array<byte>, dest: nat, src: nat, n: nat)
    requires dest + n <= mem.Length && src + n <= mem.Length
    modifies mem
    ensures Copied(mem[..], old(mem[..]), dest, src, n)
  {
    hide Copied;
    ghost var before := mem[..];
    NoneCopied(before, dest, src);
    NoneCopied(before, dest + n, src + n);
    var ecx := n;
    if src >= dest {
      while ecx != 0
        invariant 0 <= ecx <= n && Copied(mem[..], before, dest, src, n - ecx)
      {
        CopyOneMore(mem[..], before, dest, src, n - ecx, n);
        MoveByte(mem, dest + n - ecx, src + n - ecx);
        ecx := ecx - 1;
      }
    } else {
      while ecx != 0
        invariant 0 <= ecx <= n && Copied(mem[..], before, dest + ecx, src + ecx, n - ecx)
      {
        CopyOneMoreDown(mem[..], before, dest, src, ecx - 1, n);
        MoveByte(mem, dest + ecx - 1, src + ecx - 1);
        ecx := ecx - 1;
      }
    }
  }

  lemma CopyOneMoreDown(now: seq<byte>, before: seq<byte>, dest: nat, src: nat, i: nat, n: nat)
    requires src < dest && dest + n <= |before| && src + n <= |before| && i < n
    requires Copied(now, before, dest + i + 1, src + i + 1, n - i - 1)
    ensures now[src + i] == before[src + i]
    ensures Copied(now[dest + i := now[src + i]], before, dest + i, src + i, n - i)
  {
  }

  /**
   `Copied` determines the result, so for every admissible layout `memcpy` and `memmove` agree with
   each other and with the plain copy of the old source.
   */
  lemma CopiedIsThePlainCopy(now: seq<byte>, before: seq<byte>, dest: nat, src: nat, n: nat)
    requires dest + n <= |before| && src + n <= |before|
    ensures Copied(now, before, dest, src, n) <==> now == before[..dest] + before[src..src + n] + before[dest + n..]
  {
    var plain := before[..dest] + before[src..src + n] + before[dest + n..];
    assert Copied(plain, before, dest, src, n);
  }
}
