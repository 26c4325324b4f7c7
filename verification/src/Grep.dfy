/** grep over one filled buffer: the sliding buffer in place, with the library routines it uses. */
module Grep {
  import opened Bytes
  import opened CStrings
  import opened Memory
  import opened GrepSpec
  import opened GrepMachine

  // ---------------------------------------------------------------- library routines it uses

  /** `ece391_strcpy`: a forward copy, safe although the regions overlap, because it moves bytes down. */
  method Strcpy(a: array<byte>, dst: nat, src: nat, ghost n: nat)
    requires dst <= src && src + n < a.Length && a[src + n] == NUL
    requires forall k :: src <= k < src + n ==> a[k] != NUL
    modifies a
    ensures Copied(a[..], old(a[..]), dst, src, n + 1)
  {
    hide Copied;
    ghost var before := a[..];
    NoneCopied(before, dst, src);
    CopyOneMore(before, before, dst, src, 0, n + 1);
    MoveByte(a, dst, src);
    var i := 0;
    while a[dst + i] != NUL
      invariant 0 <= i <= n && Copied(a[..], before, dst, src, i + 1)
      decreases n - i
    {
      CopiedAt(a[..], before, dst, src, i + 1, i);
      i := i + 1;
      CopyOneMore(a[..], before, dst, src, i, n + 1);
      MoveByte(a, dst + i, src + i);
    }
    CopiedAt(a[..], before, dst, src, i + 1, i);
    assert i == n;
  }

  /**
   `ece391_strncmp` of buffer text against the whole pattern: the difference at the first byte that
   differs, 0 when there is none.
   */
  method Strncmp(a: array<byte>, p: nat, s: seq<byte>, n: nat) returns (r: int)
    requires p < a.Length && n < |s| && NUL !in s[..n]
    requires exists e :: p <= e < a.Length && a[e] == NUL
    ensures r == 0 <==> p + n <= a.Length && a[p..p + n] == s[..n]
    ensures r != 0 ==>
              exists i :: 0 <= i < n && p + i < a.Length && a[p..p + i] == s[..i] && r == a[p + i] as int - s[i] as int
  {
    if n == 0 {
      return 0;
    }
    var i, left := 0, n;
    ghost var e :| p <= e < a.Length && a[e] == NUL;
    while a[p + i] == s[i]
      invariant 0 <= i < n && left == n - i && p + i <= e
      invariant a[p..p + i] == s[..i]
      decreases left
    {
      assert s[..n][i] == s[i];
      assert a[p..p + i + 1] == s[..i + 1];
      left := left - 1;
      if a[p + i] == NUL || left == 0 {
        return 0;
      }
      i := i + 1;
    }
    assert p + n <= a.Length ==> a[p..p + n][i] == a[p + i] && s[..n][i] == s[i];
    return a[p + i] as int - s[i] as int;
  }

  // ---------------------------------------------------------------- one row

  method FindEnd(data: array<byte>, start: nat, last: nat) returns (end: nat)
    requires start <= last <= data.Length
    ensures end == FirstNewline(data[..], start, last)
  {
    end := start;
    while end < last && data[end] != NEWLINE
      invariant start <= end <= last
      invariant FirstNewline(data[..], start, last) == FirstNewline(data[..], end, last)
    {
      end := end + 1;
    }
  }

  ghost predicate Pattern(s: seq<byte>, n: nat) {
    n < |s| && s[n] == NUL && NUL !in s[..n]
  }

  /**
   Tries every start in the row; the terminator written at its end stops the comparison. NULs inside
   the row do not stop the search.
   */
  method SearchRow(data: array<byte>, start: nat, end: nat, s: seq<byte>, n: nat) returns (hit: bool)
    requires start <= end < data.Length && data[end] == NUL && Pattern(s, n)
    ensures hit <==> Hits(data[start..end], s[..n])
  {
    ghost var row, pat := data[start..end], s[..n];
    var check := start;
    while check < end
      invariant start <= check <= end
      invariant Searchable(pat) ==> forall i :: 0 <= i < check - start && i <= |row| - n ==> !MatchAt(row, pat, i)
      invariant pat == [] ==> NUL !in row[..check - start]
    {
      assert data[check] == row[check - start];
      assert row[..check - start + 1] == row[..check - start] + [data[check]];
      if Signed(s[0]) == data[check] {
        var difference := Strncmp(data, check, s, n);
        MatchInRow(data[..], start, end, check, pat);
        if difference == 0 {
          return true;
        }
      } else {
        NoMatchWithoutFirstByte(row, pat, check - start);
      }
      check := check + 1;
    }
    assert row[..end - start] == row;
    return false;
  }

  lemma NoMatchWithoutFirstByte(row: seq<byte>, pat: seq<byte>, i: nat)
    requires i < |row| && (pat == [] || Signed(pat[0]) != row[i])
    ensures Searchable(pat) && i + |pat| <= |row| ==> !MatchAt(row, pat, i)
  {
    if Searchable(pat) && i + |pat| <= |row| {
      assert row[i..i + |pat|][0] == row[i];
    }
  }

  /** Text equal to a NUL-free pattern cannot reach over the row's terminator. */
  lemma MatchInRow(data: seq<byte>, start: nat, end: nat, check: nat, pat: seq<byte>)
    requires start <= check < end < |data| && data[end] == NUL && NUL !in pat
    ensures check + |pat| <= |data| && data[check..check + |pat|] == pat <==>
            check + |pat| <= end && MatchAt(data[start..end], pat, check - start)
  {
    var n, i := |pat|, check - start;
    if check + n <= end {
      SliceOfSlice(data, start, end, i, i + n);
      assert start + i == check;
    } else if check + n <= |data| {
      assert data[check..check + n][end - check] == NUL;
    }
  }

  /** `ece391_fdputs` of the row: everything before its first NUL. */
  method PutRow(data: array<byte>, start: nat, ghost end: nat) returns (v: seq<byte>)
    requires start <= end < data.Length && data[end] == NUL
    ensures v == Visible(data[start..end])
  {
    var n := Strlen(data[..], start);
    v := data[start..start + n];
    ghost var row := data[start..end];
    assert forall k :: start <= k < start + n ==> data[k] == v[k - start];
    assert v == data[..][start..start + n] == row[0..n];
    CStringIsUnique(row, 0, |row|, v);
  }

  /** Terminates the row at `end`, searches it and prints it if the pattern is found. */
  method CloseRow(data: array<byte>, start: nat, end: nat, s: seq<byte>, n: nat) returns (shown: seq<seq<byte>>)
    requires start <= end < data.Length && Pattern(s, n)
    modifies data
    ensures shown == Shown(old(data[..])[start..end], s[..n])
    ensures data[..] == old(data[..])[end := NUL]
  {
    hide Hits;
    data[end] := NUL;
    assert data[start..end] == old(data[..])[start..end];
    var hit := SearchRow(data, start, end, s, n);
    shown := [];
    if hit {
      var row := PutRow(data, start, end);
      shown := [row];
    }
  }

  /** Moves an unfinished row to the start of the buffer, as far as its first NUL. */
  method CarryDown(data: array<byte>, start: nat, end: nat)
    requires 0 < start <= end <= BUFSIZE && data.Length == BUFSIZE + 1
    modifies data
    ensures var b: Buffer := old(data[..])[end := NUL];
            FirstNul(b, start) <= end && data[..] == CarriedDown(b, start)
  {
    data[end] := NUL;
    ghost var b: Buffer := data[..];
    assert b[end] == NUL;
    ghost var n := FirstNul(b, start) - start;
    Strcpy(data, 0, start, n);
    CopiedIsThePlainCopy(data[..], b, 0, start, n + 1);
    hide Copied;
    assert b[..0] == [];
  }

  // ---------------------------------------------------------------- one pass

  /**
   The body of the inner loop. When it ends the pass, `next` is the number of bytes kept; otherwise
   it is where the next row starts.
   */
  method OneRow(data: array<byte>, start: nat, filled: nat, cnt: nat, s: seq<byte>, n: nat)
    returns (done: bool, next: nat, shown: seq<seq<byte>>)
    requires data.Length == BUFSIZE + 1 && filled <= BUFSIZE && (start == 0 || start < filled) && Pattern(s, n)
    modifies data
    ensures done ==>
              PassFrom(old(data[..]), start, filled, cnt != 0, s[..n]) == PassResult(shown, data[..], next)
    ensures !done ==>
              && start < next < filled
              && var r := PassFrom(data[..], next, filled, cnt != 0, s[..n]);
                 PassFrom(old(data[..]), start, filled, cnt != 0, s[..n]) == r.(hits := shown + r.hits)
  {
    hide Shown;
    hide CarriedDown;
    var end := FindEnd(data, start, filled);
    if data[end] != NEWLINE && cnt != 0 && start != 0 {
      CarryDown(data, start, end);
      return true, filled - start, [];
    }
    shown := CloseRow(data, start, end, s, n);
    if end + 1 >= filled {
      return true, 0, shown;
    }
    return false, end + 1, shown;
  }

  /** One pass over a refilled buffer does what the machine does, for every content of the buffer. */
  method Pass(data: array<byte>, filled: nat, cnt: nat, s: seq<byte>, n: nat)
    returns (hits: seq<seq<byte>>, last: nat)
    requires data.Length == BUFSIZE + 1 && filled <= BUFSIZE && Pattern(s, n)
    modifies data
    ensures PassResult(hits, data[..], last) == PassFrom(old(data[..]), 0, filled, cnt != 0, s[..n])
  {
    hide PassFrom;
    ghost var goal := PassFrom(data[..], 0, filled, cnt != 0, s[..n]);
    hits := [];
    var start: nat, done := 0, false;
    while !done
      invariant done ==> goal == PassResult(hits, data[..], start)
      invariant !done ==>
                  && (start == 0 || start < filled)
                  && var r := PassFrom(data[..], start, filled, cnt != 0, s[..n]);
                     goal == r.(hits := hits + r.hits)
      decreases !done, filled - start
    {
      var shown;
      ghost var before := hits;
      ghost var r := PassFrom(data[..], start, filled, cnt != 0, s[..n]);
      done, start, shown := OneRow(data, start, filled, cnt, s, n);
      hits := hits + shown;
      if !done {
        Associative(before, shown, PassFrom(data[..], start, filled, cnt != 0, s[..n]).hits);
      }
    }
    last := start;
  }
}
