/** Number printing: the digit loop of `itoa`, the in-place `strrev`, and the `%#x` padding. */
module Numbers {
  import opened Bytes
  import opened CStrings

  // ---------------------------------------------------------------- numerals

  const LOOKUP: seq<byte> := [48, 49, 50, 51, 52, 53, 54, 55, 56, 57, 65, 66, 67, 68, 69, 70, 71, 72, 73, 74, 75,
                              76, 77, 78, 79, 80, 81, 82, 83, 84, 85, 86, 87, 88, 89, 90]

  function Digit(d: nat): (c: byte)
    requires d < 36
    ensures c == if d < 10 then 48 + d else 55 + d
  {
    LOOKUP[d]
  }

  /** What a reader takes a digit character for. */
  function DigitValue(c: byte): (d: int) {
    if 48 <= c <= 57 then c - 48 else if 65 <= c <= 90 then c - 55 else -1
  }

  /** The number a reader sees in `s`. */
  ghost function ValueOf(s: seq<byte>, radix: nat): int {
    if s == [] then 0 else ValueOf(s[..|s| - 1], radix) * radix + DigitValue(s[|s| - 1])
  }

  ghost predicate IsNumeral(s: seq<byte>, radix: nat) {
    s != [] && (forall i :: 0 <= i < |s| ==> 0 <= DigitValue(s[i]) < radix) && (|s| > 1 ==> s[0] != 48)
  }

  /** The digits of `n` in the order the loop produces them, lowest first. */
  function LowFirst(n: nat, radix: nat): (s: seq<byte>)
    requires 2 <= radix <= 36
  {
    if n == 0 then [] else [Digit(n % radix)] + LowFirst(n / radix, radix)
  }

  function Reversed(s: seq<byte>): (r: seq<byte>)
    ensures |r| == |s|
    ensures forall i :: 0 <= i < |s| ==> r[i] == s[|s| - 1 - i]
  {
    if s == [] then [] else Reversed(s[1..]) + [s[0]]
  }

  /** The string `itoa` leaves behind. */
  function Numeral(n: nat, radix: nat): seq<byte>
    requires 2 <= radix <= 36
  {
    if n == 0 then [48] else Reversed(LowFirst(n, radix))
  }

  lemma Divided(n: nat, r: nat)
    requires r >= 2
    ensures n / r * r + n % r == n && n % r < r
    ensures n > 0 ==> n / r < n
  {
  }

  lemma DividedBound(n: nat, r: nat, p: nat)
    requires r >= 1 && n < r * p
    ensures n / r < p
  {
    var q := n / r;
    assert q * r <= n;
    assert q >= p ==> q * r >= p * r;
  }

  /** Appending a digit multiplies by the radix and adds. */
  lemma Appended(s: seq<byte>, d: nat, radix: nat)
    requires d < radix <= 36 && (s == [] || (IsNumeral(s, radix) && s[0] != 48)) && (s == [] ==> d > 0)
    ensures var t := s + [Digit(d)];
            IsNumeral(t, radix) && t[0] != 48 && ValueOf(t, radix) == ValueOf(s, radix) * radix + d
  {
    var t := s + [Digit(d)];
    assert t[..|t| - 1] == s;
    assert DigitValue(Digit(d)) == d;
  }

  lemma LowFirstReversed(n: nat, radix: nat)
    requires 2 <= radix <= 36 && n > 0
    ensures Reversed(LowFirst(n, radix)) == Reversed(LowFirst(n / radix, radix)) + [Digit(n % radix)]
  {
    var s, rest := LowFirst(n, radix), LowFirst(n / radix, radix);
    assert s == [Digit(n % radix)] + rest;
    hide LowFirst;
    assert s[1..] == rest;
  }

  lemma {:induction false} ReadsBackPositive(n: nat, radix: nat)
    requires 2 <= radix <= 36 && n > 0
    ensures var s := Reversed(LowFirst(n, radix));
            IsNumeral(s, radix) && ValueOf(s, radix) == n && s[0] != 48
    decreases n
  {
    hide IsNumeral;
    hide LowFirst;
    Divided(n, radix);
    LowFirstReversed(n, radix);
    if n / radix > 0 {
      ReadsBackPositive(n / radix, radix);
    } else {
      Smallest(radix);
    }
    Appended(Reversed(LowFirst(n / radix, radix)), n % radix, radix);
  }

  lemma Smallest(radix: nat)
    requires 2 <= radix <= 36
    ensures LowFirst(0, radix) == [] && Reversed(LowFirst(0, radix)) == [] && ValueOf([], radix) == 0
  {
  }

  /** Reading the numeral back gives the number; only 0 itself starts with a 0. */
  lemma NumeralReadsBack(n: nat, radix: nat)
    requires 2 <= radix <= 36
    ensures IsNumeral(Numeral(n, radix), radix) && ValueOf(Numeral(n, radix), radix) == n
  {
    if n > 0 {
      ReadsBackPositive(n, radix);
    } else {
      assert Numeral(0, radix)[..0] == [];
    }
  }

  ghost function Power(b: nat, k: nat): nat {
    if k == 0 then 1 else b * Power(b, k - 1)
  }

  /** A number below radix^k has at most k digits. */
  lemma {:induction false} DigitsBound(n: nat, radix: nat, k: nat)
    requires 2 <= radix <= 36 && n < Power(radix, k)
    ensures |LowFirst(n, radix)| <= k
    decreases k
  {
    hide LowFirst;
    if n == 0 {
      Smallest(radix);
    } else {
      OneDigitMore(n, radix);
      DividedBound(n, radix, Power(radix, k - 1));
      DigitsBound(n / radix, radix, k - 1);
    }
  }

  lemma OneDigitMore(n: nat, radix: nat)
    requires 2 <= radix <= 36 && n > 0
    ensures |LowFirst(n, radix)| == 1 + |LowFirst(n / radix, radix)|
  {
  }

  lemma {:induction false} PowerGrows(b: nat, k: nat)
    requires b >= 2
    ensures Power(2, k) <= Power(b, k)
  {
    if k > 0 {
      PowerGrows(b, k - 1);
      ProductGrows(2, b, Power(2, k - 1), Power(b, k - 1));
    }
  }

  lemma ProductGrows(a: nat, b: nat, x: nat, y: nat)
    requires a <= b && x <= y
    ensures a * x <= b * y
  {
    assert a * x <= b * x <= b * y;
  }

  lemma TwoTo32()
    ensures Power(2, 32) == 0x1_0000_0000
  {
    assert Power(2, 8) == 0x100;
    assert Power(2, 16) == 0x1_0000;
    assert Power(2, 24) == 0x100_0000;
  }

  lemma SixteenTo8()
    ensures Power(16, 8) == 0x1_0000_0000
  {
    assert Power(16, 4) == 0x1_0000;
  }

  lemma WordFits(n: uint32, radix: nat)
    requires 2 <= radix <= 36
    ensures |LowFirst(n, radix)| <= 32
  {
    TwoTo32();
    PowerGrows(radix, 32);
    DigitsBound(n, radix, 32);
  }

  // ---------------------------------------------------------------- in-place reversal

  /** Byte `k` when the outer `m` pairs of the `n` bytes at `at` have been swapped. */
  ghost function SwappedByte(before: seq<byte>, at: nat, n: nat, m: nat, k: nat): byte
    requires at + n <= |before| && k < |before|
  {
    if at <= k < at + n && (k < at + m || at + n - m <= k) then before[2 * at + n - 1 - k] else before[k]
  }

  ghost predicate Swapped(now: seq<byte>, before: seq<byte>, at: nat, n: nat, m: nat)
    requires at + n <= |before|
  {
    |now| == |before| && forall k :: 0 <= k < |now| ==> now[k] == SwappedByte(before, at, n, m, k)
  }

  lemma SwapOneMore(now: seq<byte>, before: seq<byte>, at: nat, n: nat, m: nat)
    requires at + n <= |before| && 2 * m + 1 < n && Swapped(now, before, at, n, m)
    ensures var beg, end := at + m, at + n - 1 - m;
            Swapped(now[end := now[beg]][beg := now[end]], before, at, n, m + 1)
  {
    var beg, end := at + m, at + n - 1 - m;
    assert now[beg] == SwappedByte(before, at, n, m, beg) && now[end] == SwappedByte(before, at, n, m, end);
  }

  lemma AllSwapped(now: seq<byte>, before: seq<byte>, at: nat, n: nat, m: nat)
    requires at + n <= |before| && n <= 2 * m + 1 && Swapped(now, before, at, n, m)
    ensures now[at..at + n] == Reversed(before[at..at + n])
    ensures forall k :: 0 <= k < |now| && !(at <= k < at + n) ==> now[k] == before[k]
  {
    var was, turned := before[at..at + n], now[at..at + n];
    forall k | 0 <= k < n
      ensures turned[k] == Reversed(was)[k]
    {
      assert now[at + k] == SwappedByte(before, at, n, m, at + k);
      assert Reversed(was)[k] == was[n - 1 - k];
    }
  }

  /** `strrev` */
  method Strrev(buf: array<byte>, at: nat, ghost n: nat)
    requires at + n < buf.Length && buf[at + n] == NUL && NUL !in buf[at..at + n]
    modifies buf
    ensures buf[at..at + n] == Reversed(old(buf[at..at + n]))
    ensures forall k :: 0 <= k < buf.Length && !(at <= k < at + n) ==> buf[k] == old(buf[k])
  {
    hide Swapped;
    ghost var before := buf[..];
    assert before[at + n] == NUL;
    var length := Strlen(buf[..], at);
    assert length == n by {
      CStringIsUnique(before, at, buf.Length, before[at..at + n]);
      CStringIsUnique(before, at, buf.Length, before[at..at + length]);
    }
    var beg, end := 0, length as int - 1;
    NoneSwapped(before, at, n);
    while beg < end
      invariant 0 <= beg && end == n - 1 - beg && beg <= end + 2
      invariant Swapped(buf[..], before, at, n, beg)
    {
      SwapOneMore(buf[..], before, at, n, beg);
      SwapBytes(buf, at + beg, at + end);
      beg, end := beg + 1, end - 1;
    }
    AllSwapped(buf[..], before, at, n, beg);
  }

  method SwapBytes(buf: array<byte>, beg: nat, end: nat)
    requires beg < buf.Length && end < buf.Length
    modifies buf
    ensures buf[..] == old(buf[..])[end := old(buf[beg])][beg := old(buf[end])]
  {
    var tmp := buf[end];
    buf[end] := buf[beg];
    buf[beg] := tmp;
  }

  lemma NoneSwapped(before: seq<byte>, at: nat, n: nat)
    requires at + n <= |before|
    ensures Swapped(before, before, at, n, 0)
  {
  }

  // ---------------------------------------------------------------- itoa

  /** `buf` holds the string `s` at `at`, and nothing else has changed since `before`. */
  ghost predicate Holds(buf: array<byte>, at: nat, s: seq<byte>, before: seq<byte>)
    reads buf
  {
    && at + |s| < buf.Length == |before|
    && buf[at..at + |s|] == s && buf[at + |s|] == NUL
    && forall k :: 0 <= k < buf.Length && !(at <= k <= at + |s|) ==> buf[k] == before[k]
  }

  lemma {:induction false} LowFirstNoNul(n: nat, radix: nat)
    requires 2 <= radix <= 36
    ensures NUL !in LowFirst(n, radix)
    decreases n
  {
    if n > 0 {
      Divided(n, radix);
      LowFirstNoNul(n / radix, radix);
    }
  }

  /** The digit loop: writes the digits lowest first. */
  method WriteDigits(value: uint32, buf: array<byte>, at: nat, radix: nat)
    requires 2 <= radix <= 36 && at + 33 <= buf.Length
    modifies buf
    ensures Holds(buf, at, LowFirst(value, radix), old(buf[..]))
  {
    hide LowFirst;
    ghost var digits := LowFirst(value, radix);
    WordFits(value, radix);
    var newval, i := value, 0;
    while newval > 0
      invariant 0 <= i <= |digits| && 0 <= newval && digits[i..] == LowFirst(newval, radix)
      invariant forall k :: 0 <= k < buf.Length ==>
                  buf[k] == if at <= k < at + i then digits[k - at] else old(buf[..])[k]
      decreases newval
    {
      var digit, quotient := NextDigit(newval, radix);
      assert digits[i] == digits[i..][0] && digits[i + 1..] == digits[i..][1..];
      buf[at + i] := digit;
      i := i + 1;
      newval := quotient;
    }
    Smallest(radix);
    buf[at + i] := NUL;
  }

  method NextDigit(newval: nat, radix: nat) returns (digit: byte, quotient: nat)
    requires 2 <= radix <= 36 && newval > 0
    ensures var s := LowFirst(newval, radix); |s| > 0 && s[0] == digit && s[1..] == LowFirst(quotient, radix)
    ensures quotient < newval
  {
    Divided(newval, radix);
    digit := LOOKUP[newval % radix];
    quotient := newval / radix;
  }

  /** `itoa`: the buffer holds the numeral of the value, and only its bytes were written. */
  method Itoa(value: uint32, buf: array<byte>, at: nat, radix: nat)
    requires 2 <= radix <= 36 && at + 33 <= buf.Length
    modifies buf
    ensures Holds(buf, at, Numeral(value, radix), old(buf[..]))
  {
    if value == 0 {
      buf[at] := 48;
      buf[at + 1] := NUL;
      return;
    }
    WriteDigits(value, buf, at, radix);
    LowFirstNoNul(value, radix);
    Strrev(buf, at, |LowFirst(value, radix)|);
  }

  // ---------------------------------------------------------------- printf("%#x")

  ghost function Zeros(n: nat): (z: seq<byte>)
    ensures |z| == n
  {
    seq(n, _ => 48)
  }

  lemma {:induction false} LeadingZeros(k: nat, s: seq<byte>, radix: nat)
    ensures ValueOf(Zeros(k) + s, radix) == ValueOf(s, radix)
    decreases k + |s|
  {
    var t := Zeros(k) + s;
    if s != [] {
      assert t[..|t| - 1] == Zeros(k) + s[..|s| - 1];
      LeadingZeros(k, s[..|s| - 1], radix);
    } else if k > 0 {
      assert t[..|t| - 1] == Zeros(k - 1) + s;
      LeadingZeros(k - 1, s, radix);
    }
  }

  lemma NumeralLength(n: uint32)
    ensures |Numeral(n, 16)| <= 8
  {
    SixteenTo8();
    DigitsBound(n, 16, 8);
  }

  lemma NumeralNoNul(n: nat, radix: nat)
    requires 2 <= radix <= 36
    ensures NUL !in Numeral(n, radix)
  {
    LowFirstNoNul(n, radix);
    var low := LowFirst(n, radix);
    assert forall i :: 0 <= i < |low| ==> Reversed(low)[i] in low;
  }

  /** `puts`: the bytes it hands to the console, up to the terminator. */
  method Puts(buf: array<byte>, start: nat) returns (out: seq<byte>)
    requires Terminated(buf[..], start)
    ensures start + |out| < buf.Length && out == buf[start..start + |out|]
    ensures NUL !in out && buf[start + |out|] == NUL
  {
    var n := Strlen(buf[..], start);
    out := buf[start..start + n];
  }

  /** The zero fill in front of the digits at index 8. */
  method FillZeros(buf: array<byte>, start: nat)
    requires buf.Length == 64
    modifies buf
    ensures forall k :: 0 <= k < 64 ==> buf[k] == if start <= k < 8 then 48 else old(buf[k])
  {
    var i := start;
    while i < 8
      invariant start <= i && (start <= 8 ==> i <= 8)
      invariant forall k :: 0 <= k < 64 ==> buf[k] == if start <= k < 8 && k < i then 48 else old(buf[k])
    {
      buf[i] := 48;
      i := i + 1;
    }
  }

  /** Exactly eight hexadecimal digits that denote the value. */
  method PrintHexAligned(value: uint32) returns (out: seq<byte>)
    ensures |out| == 8 && ValueOf(out, 16) == value
    ensures forall i :: 0 <= i < 8 ==> 0 <= DigitValue(out[i]) < 16
    ensures |Numeral(value, 16)| <= 8 && out == Zeros(8 - |Numeral(value, 16)|) + Numeral(value, 16)
  {
    hide Numeral;
    hide ValueOf;
    ghost var s := Numeral(value, 16);
    NumeralLength(value);
    NumeralNoNul(value, 16);
    NumeralReadsBack(value, 16);
    var convBuf := new byte[64];
    Itoa(value, convBuf, 8, 16);
    assert convBuf[..][8 + |s|] == NUL && convBuf[..][8..8 + |s|] == s;
    var start := Strlen(convBuf[..], 8);
    SameString(convBuf[..], 8, s, convBuf[..][8..8 + start]);
    FillZeros(convBuf, start);
    ghost var text := Zeros(8 - |s|) + s;
    assert convBuf[8..8 + |s|] == s;
    Joined(convBuf[..], start, s);
    assert convBuf[..][8 + |s|] == NUL;
    out := Puts(convBuf, start);
    SameString(convBuf[..], start, out, text);
    LeadingZeros(8 - |s|, s, 16);
  }

  lemma Joined(buf: seq<byte>, start: nat, s: seq<byte>)
    requires |buf| == 64 && start == |s| <= 8 && buf[8..8 + |s|] == s
    requires forall k :: start <= k < 8 ==> buf[k] == 48
    ensures buf[start..8 + |s|] == Zeros(8 - |s|) + s
  {
    assert buf[start..8 + |s|] == buf[start..8] + buf[8..8 + |s|];
  }

  /** Two NUL-free strings at the same place with the same terminator condition are equal. */
  lemma SameString(buf: seq<byte>, start: nat, a: seq<byte>, b: seq<byte>)
    requires start + |a| < |buf| && buf[start..start + |a|] == a && NUL !in a && buf[start + |a|] == NUL
    requires start + |b| < |buf| && buf[start..start + |b|] == b && NUL !in b && buf[start + |b|] == NUL
    ensures a == b
  {
    CStringIsUnique(buf, start, |buf|, a);
    CStringIsUnique(buf, start, |buf|, b);
  }
}
