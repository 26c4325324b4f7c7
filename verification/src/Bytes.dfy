/** Bytes, 32-bit words and NUL-terminated strings as the kernel and its user library see them. */
module Bytes {

  type byte = b: int | 0 <= b < 0x100
  type uint32 = n: int | 0 <= n < 0x1_0000_0000
  type int32 = n: int | -0x8000_0000 <= n < 0x8000_0000

  const NUL: byte := 0
  const NEWLINE: byte := 10

  /** The little-endian 32-bit word stored at `p`. */
  function Word(s: seq<byte>, p: nat): (w: uint32)
    requires p + 4 <= |s|
  {
    s[p] as int + 0x100 * (s[p + 1] as int) + 0x1_0000 * (s[p + 2] as int) + 0x100_0000 * (s[p + 3] as int)
  }

  /** A C `char` read as the signed value the compiler gives it. */
  function Signed(b: byte): int {
    if b < 0x80 then b else b - 0x100
  }

  function Min(a: int, b: int): int {
    if a < b then a else b
  }

  /** The part of `s` that a read of `n` bytes at `offset` sees. */
  function Slice<T>(s: seq<T>, offset: nat, n: nat): (r: seq<T>)
    ensures offset <= |s| ==> |r| == Min(n, |s| - offset)
  {
    if offset >= |s| then [] else s[offset..Min(offset + n, |s|)]
  }

  lemma SliceExtends<T>(s: seq<T>, offset: nat, n: nat)
    requires offset <= |s|
    ensures s[..offset] + Slice(s, offset, n) == s[..offset + |Slice(s, offset, n)|]
  {
  }

  lemma SliceOfSlice<T>(s: seq<T>, lo: nat, hi: nat, i: nat, j: nat)
    requires lo <= hi <= |s| && i <= j <= hi - lo
    ensures s[lo..hi][i..j] == s[lo + i..lo + j]
  {
    var inner, outer := s[lo..hi][i..j], s[lo + i..lo + j];
    assert |inner| == |outer| && forall k :: 0 <= k < |inner| ==> inner[k] == outer[k];
  }

  lemma Associative<T>(a: seq<T>, b: seq<T>, c: seq<T>)
    ensures a + (b + c) == (a + b) + c
  {
  }

  /** First newline at or after `start`, or `last`. */
  function FirstNewline(b: seq<byte>, start: nat, last: nat): (e: nat)
    requires start <= last <= |b|
    ensures start <= e <= last && (e < last ==> b[e] == NEWLINE)
    ensures forall k :: start <= k < e ==> b[k] != NEWLINE
    decreases last - start
  {
    if start == last || b[start] == NEWLINE then start else FirstNewline(b, start + 1, last)
  }

  /** First NUL at or after `start`, or the length. */
  function FirstNul(b: seq<byte>, start: nat): (z: nat)
    requires start <= |b|
    ensures start <= z <= |b| && (z < |b| ==> b[z] == NUL)
    ensures forall k :: start <= k < z ==> b[k] != NUL
    decreases |b| - start
  {
    if start == |b| || b[start] == NUL then start else FirstNul(b, start + 1)
  }

  /** Some byte at or after `p` ends the string that starts at `p`. */
  ghost predicate Terminated(s: seq<byte>, p: nat) {
    exists q :: p <= q < |s| && s[q] == NUL
  }

  /** The string that starts at `p`, cut after at most `max` bytes. */
  ghost function CString(s: seq<byte>, p: nat, max: nat): (r: seq<byte>)
    ensures |r| <= max
    decreases max
  {
    if max == 0 || p >= |s| || s[p] == NUL then [] else [s[p]] + CString(s, p + 1, max - 1)
  }

  lemma {:induction false} CStringShape(s: seq<byte>, p: nat, max: nat)
    requires p <= |s|
    ensures var r := CString(s, p, max);
            NUL !in r && p + |r| <= |s| && r == s[p..p + |r|] &&
            (|r| < max ==> p + |r| == |s| || s[p + |r|] == NUL)
    decreases max
  {
    if CString(s, p, max) != [] {
      CStringShape(s, p + 1, max - 1);
    }
  }

  /** The string a pointer to the start of `s` denotes. */
  ghost function AsString(s: seq<byte>): seq<byte> {
    CString(s, 0, |s|)
  }

  /** `CString` is the only NUL-free run of bytes that ends at a NUL or at the bound. */
  lemma {:induction false} CStringIsUnique(s: seq<byte>, p: nat, max: nat, r: seq<byte>)
    requires p + |r| <= |s| && r == s[p..p + |r|] && NUL !in r && |r| <= max
    requires |r| == max || (p + |r| < |s| && s[p + |r|] == NUL)
    ensures CString(s, p, max) == r
    decreases max
  {
    if r != [] {
      CStringIsUnique(s, p + 1, max - 1, r[1..]);
    }
  }
}
