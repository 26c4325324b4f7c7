/** The string routines of the kernel library that the directory code is built on. */
module CStrings {
  import opened Bytes

  /** Offset of the first NUL at or after `p`. */
  method Strlen(s: seq<byte>, p: nat) returns (n: nat)
    requires Terminated(s, p)
    ensures p + n < |s| && s[p + n] == NUL && NUL !in s[p..p + n]
  {
    n := 0;
    ghost var q :| p <= q < |s| && s[q] == NUL;
    while s[p + n] != NUL
      invariant p + n <= q
      invariant NUL !in s[p..p + n]
      decreases q - n
    {
      assert s[p..p + n + 1] == s[p..p + n] + [s[p + n]];
      n := n + 1;
    }
  }

  /** Bytes of both strings may be inspected up to the bound or up to their terminators. */
  ghost predicate Comparable(s: seq<byte>, p: nat, n: nat) {
    p + n <= |s| || Terminated(s, p)
  }

  /** The strings have the same first `i` bytes, none of them a NUL. */
  ghost predicate AgreeTo(s1: seq<byte>, p1: nat, s2: seq<byte>, p2: nat, i: nat) {
    && p1 + i <= |s1| && p2 + i <= |s2|
    && s1[p1..p1 + i] == s2[p2..p2 + i] && NUL !in s1[p1..p1 + i]
  }

  /** Signed difference at the first place where the strings differ, 0 when they agree up to `n`. */
  method Strncmp(s1: seq<byte>, p1: nat, s2: seq<byte>, p2: nat, n: nat) returns (r: int)
    requires Comparable(s1, p1, n) && Comparable(s2, p2, n)
    ensures r == 0 <==> CString(s1, p1, n) == CString(s2, p2, n)
    ensures r != 0 ==>
              exists i :: 0 <= i < n && AgreeTo(s1, p1, s2, p2, i) && p1 + i < |s1| && p2 + i < |s2| &&
                          r == Signed(s1[p1 + i]) - Signed(s2[p2 + i])
  {
    var i := 0;
    while i < n
      invariant 0 <= i <= n
      invariant p1 + i <= |s1| && p2 + i <= |s2|
      invariant s1[p1..p1 + i] == s2[p2..p2 + i]
      invariant NUL !in s1[p1..p1 + i]
    {
      assert p1 + i < |s1| by { StillInside(s1, p1, n, i); }
      assert p2 + i < |s2| by { StillInside(s2, p2, n, i); }
      if s1[p1 + i] != s2[p2 + i] || s1[p1 + i] == NUL {
        DecidedAt(s1, p1, s2, p2, n, i);
        assert AgreeTo(s1, p1, s2, p2, i);
        return Signed(s1[p1 + i]) - Signed(s2[p2 + i]);
      }
      assert s1[p1..p1 + i + 1] == s1[p1..p1 + i] + [s1[p1 + i]];
      assert s2[p2..p2 + i + 1] == s2[p2..p2 + i] + [s2[p2 + i]];
      i := i + 1;
    }
    CStringIsUnique(s1, p1, n, s1[p1..p1 + n]);
    CStringIsUnique(s2, p2, n, s2[p2..p2 + n]);
    return 0;
  }

  lemma StillInside(s: seq<byte>, p: nat, n: nat, i: nat)
    requires Comparable(s, p, n) && i < n && p + i <= |s| && NUL !in s[p..p + i]
    ensures p + i < |s|
  {
    assert forall q :: p <= q < p + i ==> s[q] == s[p..p + i][q - p];
  }

  /** A NUL-free prefix can be split off a string. */
  lemma {:induction false} SplitOff(s: seq<byte>, p: nat, n: nat, i: nat)
    requires i <= n && p + i <= |s| && NUL !in s[p..p + i]
    ensures CString(s, p, n) == s[p..p + i] + CString(s, p + i, n - i)
    decreases i
  {
    if i > 0 {
      assert s[p] == s[p..p + i][0];
      assert s[p..p + i][1..] == s[p + 1..p + i];
      SplitOff(s, p + 1, n - 1, i - 1);
    }
  }

  /** After `i` equal, non-NUL bytes the next pair decides the comparison. */
  lemma DecidedAt(s1: seq<byte>, p1: nat, s2: seq<byte>, p2: nat, n: nat, i: nat)
    requires i < n && p1 + i < |s1| && p2 + i < |s2|
    requires s1[p1..p1 + i] == s2[p2..p2 + i] && NUL !in s1[p1..p1 + i]
    requires s1[p1 + i] != s2[p2 + i] || s1[p1 + i] == NUL
    ensures s1[p1 + i] == s2[p2 + i] <==> CString(s1, p1, n) == CString(s2, p2, n)
  {
    SplitOff(s1, p1, n, i);
    SplitOff(s2, p2, n, i);
    var rest1, rest2 := CString(s1, p1 + i, n - i), CString(s2, p2 + i, n - i);
    assert CString(s1, p1, n)[i..] == rest1 && CString(s2, p2, n)[i..] == rest2;
    assert rest1 == [] <==> s1[p1 + i] == NUL;
    assert rest2 == [] <==> s2[p2 + i] == NUL;
    assert rest1 != [] ==> rest1[0] == s1[p1 + i];
    assert rest2 != [] ==> rest2[0] == s2[p2 + i];
  }

  /** `Strncpy` of 32 bytes: the string, padded with NULs. */
  function Padded(r: seq<byte>, n: nat): (t: seq<byte>)
    requires |r| <= n
    ensures |t| == n && t[..|r|] == r && forall k :: |r| <= k < n ==> t[k] == 0
  {
    r + seq(n - |r|, _ => NUL)
  }

  /** Copies the string at `p` into an `n`-byte field and fills the rest of the field with NULs. */
  method Strncpy(s: seq<byte>, p: nat, n: nat) returns (dest: seq<byte>)
    requires p + n < |s| || Terminated(s, p)
    ensures dest == Padded(CString(s, p, n), n)
  {
    var i := 0;
    dest := [];
    ghost var q := if p + n < |s| then p + n else var q :| p <= q < |s| && s[q] == NUL; q;
    // the source is inspected once more at index n before the bound is tested
    while s[p + i] != NUL && i < n
      invariant 0 <= i <= n && |dest| == i && p + i <= q
      invariant dest == s[p..p + i] && NUL !in dest
      decreases n - i
    {
      dest := dest + [s[p + i]];
      i := i + 1;
    }
    CStringIsUnique(s, p, n, s[p..p + i]);
    ghost var copied := dest;
    while i < n
      invariant |copied| <= i <= n
      invariant dest == copied + seq(i - |copied|, _ => NUL)
    {
      dest := dest + [NUL];
      i := i + 1;
    }
  }
}
