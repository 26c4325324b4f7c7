/**
 The keyboard line buffers of the three terminals. `Lines` is what they are meant to be: one
 independent buffer of pending characters per terminal. `Flat` is the memory they live in, where
 the buffers adjoin; the driver code on it is `Terminal.Driver`.
 */
module LineBuffer {
  import opened Config
  import opened Bytes
  import opened Memory

  const MAX_BUFFER := 1025
  const BKSP: byte := 8

  // ---------------------------------------------------------------- meaning

  datatype Lines = Lines(pending: seq<seq<byte>>, enter: bool)

  ghost predicate LinesOk(l: Lines) {
    |l.pending| == TTYS && forall t :: 0 <= t < TTYS ==> |l.pending[t]| <= MAX_BUFFER + 1
  }

  predicate Plain(c: byte) { c != BKSP && c != NEWLINE }

  /** One character from the keyboard, typed on terminal `t`. */
  ghost function KeyStep(l: Lines, t: nat, c: byte): (r: Lines)
    requires LinesOk(l) && t < TTYS
    ensures LinesOk(r)
  {
    var p := l.pending[t];
    if c == BKSP then (if p == [] then l else l.(pending := l.pending[t := p[..|p| - 1]]))
    else if c == NEWLINE then l.(enter := true)
    else if |p| <= MAX_BUFFER then l.(pending := l.pending[t := p + [c]])
    else l
  }

  ghost function Handed(l: Lines, t: nat, n: nat): seq<byte>
    requires LinesOk(l) && t < TTYS
  {
    Slice(l.pending[t], 0, n)
  }

  /** A read hands over the first `n` pending characters and uses up the Enter. */
  ghost function ReadStep(l: Lines, t: nat, n: nat): (r: Lines)
    requires LinesOk(l) && t < TTYS
    ensures LinesOk(r)
  {
    Lines(l.pending[t := l.pending[t][|Handed(l, t, n)|..]], false)
  }

  // ---------------------------------------------------------------- memory

  /** `buf` holds the three buffers one behind the other, and one byte of whatever follows them. */
  datatype Flat = Flat(buf: seq<byte>, tail: seq<int>, enter: bool)

  ghost predicate FlatOk(f: Flat) {
    |f.buf| == BEHIND + 1 && |f.tail| == TTYS &&
    forall t :: 0 <= t < TTYS ==> -1 <= f.tail[t] <= MAX_BUFFER
  }

  ghost function PendingIn(f: Flat, t: nat): seq<byte>
    requires FlatOk(f) && t < TTYS
  {
    f.buf[MAX_BUFFER * t..MAX_BUFFER * t + f.tail[t] + 1]
  }

  ghost function Meaning(f: Flat): (l: Lines)
    requires FlatOk(f)
    ensures LinesOk(l)
  {
    Lines([PendingIn(f, 0), PendingIn(f, 1), PendingIn(f, 2)], f.enter)
  }

  /** The limit test lets index 1025 through, which is the next terminal's first byte. */
  function FlatKey(f: Flat, t: nat, c: byte): (r: Flat)
    requires |f.buf| == BEHIND + 1 && |f.tail| == TTYS && t < TTYS && -1 <= f.tail[t] <= MAX_BUFFER
    ensures |r.buf| == BEHIND + 1 && |r.tail| == TTYS && -1 <= r.tail[t] <= MAX_BUFFER
    ensures forall u :: 0 <= u < TTYS && u != t ==> r.tail[u] == f.tail[u]
  {
    if c == BKSP then (if f.tail[t] > -1 then f.(tail := f.tail[t := f.tail[t] - 1]) else f)
    else if c == NEWLINE then f.(enter := true)
    else if f.tail[t] < MAX_BUFFER then
      Flat(f.buf[MAX_BUFFER * t + f.tail[t] + 1 := c], f.tail[t := f.tail[t] + 1], f.enter)
    else f
  }

  /** The key overwrites the first pending character of the next terminal. */
  ghost predicate ClobbersNext(l: Lines, t: nat, c: byte)
    requires LinesOk(l) && t < TTYS
  {
    Plain(c) && |l.pending[t]| == MAX_BUFFER && t + 1 < TTYS && l.pending[t + 1] != [] && l.pending[t + 1][0] != c
  }

  /** The key overwrites the last pending character of the previous terminal, which had run over. */
  ghost predicate ClobbersPrevious(l: Lines, t: nat, c: byte)
    requires LinesOk(l) && t < TTYS
  {
    Plain(c) && l.pending[t] == [] && t > 0 && |l.pending[t - 1]| == MAX_BUFFER + 1 && l.pending[t - 1][MAX_BUFFER] != c
  }

  ghost predicate Clobbers(l: Lines, t: nat, c: byte)
    requires LinesOk(l) && t < TTYS
  {
    ClobbersNext(l, t, c) || ClobbersPrevious(l, t, c)
  }

  /** Index of the byte behind all three buffers, which belongs to something else. */
  const BEHIND := TTYS * MAX_BUFFER

  /** The key is stored behind the last terminal's buffer, outside all three. */
  ghost predicate Spills(l: Lines, t: nat, c: byte)
    requires LinesOk(l) && t < TTYS
  {
    Plain(c) && |l.pending[t]| == MAX_BUFFER && t + 1 == TTYS
  }

  lemma UpdateShows(s: seq<byte>, i: nat, c: byte, lo: nat, hi: nat)
    requires lo <= hi <= |s| && i < |s|
    ensures s[i := c][lo..hi] == s[lo..hi] <==> !(lo <= i < hi && s[i] != c)
  {
    if lo <= i < hi {
      assert s[i := c][lo..hi][i - lo] == c && s[lo..hi][i - lo] == s[i];
    }
  }

  lemma UpdateAppends(s: seq<byte>, lo: nat, hi: nat, c: byte)
    requires lo <= hi < |s|
    ensures s[hi := c][lo..hi + 1] == s[lo..hi] + [c]
  {
  }

  lemma MeaningAt(f: Flat, t: nat)
    requires FlatOk(f) && t < TTYS
    ensures Meaning(f).pending[t] == PendingIn(f, t)
  {
  }

  lemma OwnPending(f: Flat, t: nat, c: byte)
    requires FlatOk(f) && t < TTYS
    ensures FlatOk(FlatKey(f, t, c))
    ensures PendingIn(FlatKey(f, t, c), t) == KeyStep(Meaning(f), t, c).pending[t]
  {
    MeaningAt(f, t);
    hide Meaning;
    if c == BKSP {
      OwnBackspace(f, t);
    } else if Plain(c) && f.tail[t] < MAX_BUFFER {
      OwnStore(f, t, c);
    }
  }

  lemma OwnBackspace(f: Flat, t: nat)
    requires FlatOk(f) && t < TTYS
    ensures FlatOk(FlatKey(f, t, BKSP))
    ensures var p := PendingIn(f, t); PendingIn(FlatKey(f, t, BKSP), t) == if p == [] then p else p[..|p| - 1]
  {
    if f.tail[t] > -1 {
      TakeOneLess(f.buf, MAX_BUFFER * t, MAX_BUFFER * t + f.tail[t] + 1);
    }
  }

  lemma OwnStore(f: Flat, t: nat, c: byte)
    requires FlatOk(f) && t < TTYS && Plain(c) && f.tail[t] < MAX_BUFFER
    ensures FlatOk(FlatKey(f, t, c))
    ensures PendingIn(FlatKey(f, t, c), t) == PendingIn(f, t) + [c]
  {
    UpdateAppends(f.buf, MAX_BUFFER * t, MAX_BUFFER * t + f.tail[t] + 1, c);
  }

  lemma TakeOneLess(s: seq<byte>, lo: nat, hi: nat)
    requires lo < hi <= |s|
    ensures s[lo..hi][..hi - lo - 1] == s[lo..hi - 1]
  {
    SliceOfSlice(s, lo, hi, 0, hi - lo - 1);
    assert s[lo..hi][..hi - lo - 1] == s[lo..hi][0..hi - lo - 1];
    assert lo + (hi - lo - 1) == hi - 1;
  }

  /** The key is stored where it belongs to the pending characters of `u`. */
  ghost predicate Lands(f: Flat, t: nat, u: nat)
    requires FlatOk(f) && t < TTYS && u < TTYS
  {
    var i := MAX_BUFFER * t + f.tail[t] + 1;
    f.tail[t] < MAX_BUFFER && MAX_BUFFER * u <= i < MAX_BUFFER * u + f.tail[u] + 1
  }

  lemma LandsNextDoor(f: Flat, t: nat, u: nat)
    requires FlatOk(f) && t < TTYS && u < TTYS && u != t
    ensures Lands(f, t, u) <==>
            (u == t + 1 && f.tail[t] + 1 == MAX_BUFFER && f.tail[u] >= 0) ||
            (u + 1 == t && f.tail[t] == -1 && f.tail[u] == MAX_BUFFER)
  {
  }

  /** What a key does to the pending characters of another terminal. */
  lemma OtherPending(f: Flat, t: nat, c: byte, u: nat)
    requires FlatOk(f) && t < TTYS && u < TTYS && u != t
    ensures FlatOk(FlatKey(f, t, c))
    ensures PendingIn(FlatKey(f, t, c), u) == PendingIn(f, u) <==>
            !(Plain(c) && Lands(f, t, u) && f.buf[MAX_BUFFER * t + f.tail[t] + 1] != c)
  {
    if Plain(c) && f.tail[t] < MAX_BUFFER {
      UpdateShows(f.buf, MAX_BUFFER * t + f.tail[t] + 1, c, MAX_BUFFER * u, MAX_BUFFER * u + f.tail[u] + 1);
    }
  }

  /** The same in terms of the pending characters. */
  lemma OtherClobbered(f: Flat, t: nat, c: byte, u: nat)
    requires FlatOk(f) && t < TTYS && u < TTYS && u != t
    ensures FlatOk(FlatKey(f, t, c))
    ensures PendingIn(FlatKey(f, t, c), u) == PendingIn(f, u) <==>
            !(u == t + 1 && ClobbersNext(Meaning(f), t, c)) && !(u + 1 == t && ClobbersPrevious(Meaning(f), t, c))
  {
    OtherPending(f, t, c, u);
    LandsNextDoor(f, t, u);
    MeaningAt(f, t);
    MeaningAt(f, u);
    hide Meaning;
    hide FlatKey;
    hide Lands;
    var p := PendingIn(f, u);
    assert p != [] ==> p[0] == f.buf[MAX_BUFFER * u];
    assert |p| == MAX_BUFFER + 1 ==> p[MAX_BUFFER] == f.buf[MAX_BUFFER * u + MAX_BUFFER];
  }

  /**
   From every state, a key does what it means for all three terminals exactly when it clobbers neither
   neighbour.
   */
  lemma KeyRefines(f: Flat, t: nat, c: byte)
    requires FlatOk(f) && t < TTYS
    ensures FlatOk(FlatKey(f, t, c))
    ensures Meaning(FlatKey(f, t, c)) == KeyStep(Meaning(f), t, c) <==> !Clobbers(Meaning(f), t, c)
  {
    OwnPending(f, t, c);
    var g, l := FlatKey(f, t, c), Meaning(f);
    SameLines(g, KeyStep(l, t, c));
    KeyLeavesOthers(f, t, c);
    forall u | 0 <= u < TTYS && u != t
      ensures PendingIn(g, u) == l.pending[u] <==>
              !(u == t + 1 && ClobbersNext(l, t, c)) && !(u + 1 == t && ClobbersPrevious(l, t, c))
    {
      OtherClobbered(f, t, c, u);
      MeaningAt(f, u);
    }
    hide Meaning;
    hide FlatKey;
    hide KeyStep;
    hide PendingIn;
    hide ClobbersNext;
    hide ClobbersPrevious;
    assert ClobbersNext(l, t, c) ==> t + 1 < TTYS by { ClobbersInside(l, t, c); }
    assert ClobbersPrevious(l, t, c) ==> t > 0 by { ClobbersInside(l, t, c); }
  }

  lemma ClobbersInside(l: Lines, t: nat, c: byte)
    requires LinesOk(l) && t < TTYS
    ensures (ClobbersNext(l, t, c) ==> t + 1 < TTYS) && (ClobbersPrevious(l, t, c) ==> t > 0)
  {
  }

  lemma SameLines(g: Flat, l: Lines)
    requires FlatOk(g) && LinesOk(l)
    ensures Meaning(g) == l <==> g.enter == l.enter && forall u :: 0 <= u < TTYS ==> PendingIn(g, u) == l.pending[u]
  {
    hide PendingIn;
    if g.enter == l.enter && forall u :: 0 <= u < TTYS ==> PendingIn(g, u) == l.pending[u] {
      assert Meaning(g).pending == l.pending;
    }
  }

  /** A key means nothing for the other terminals, and it means for Enter what it does. */
  lemma KeyLeavesOthers(f: Flat, t: nat, c: byte)
    requires FlatOk(f) && t < TTYS
    ensures FlatKey(f, t, c).enter == KeyStep(Meaning(f), t, c).enter
    ensures forall u :: 0 <= u < TTYS && u != t ==> KeyStep(Meaning(f), t, c).pending[u] == Meaning(f).pending[u]
  {
    hide PendingIn;
  }

  /** On the last terminal the 1026th key is written behind all three buffers; no other key is. */
  lemma KeySpills(f: Flat, t: nat, c: byte)
    requires FlatOk(f) && t < TTYS
    ensures FlatKey(f, t, c).buf[BEHIND] == if Spills(Meaning(f), t, c) then c else f.buf[BEHIND]
  {
    MeaningAt(f, t);
    hide Meaning;
  }

  /** How many bytes a read of `n` takes. */
  function Taken(f: Flat, t: nat, n: nat): (a: nat)
    requires |f.tail| == TTYS && t < TTYS && -1 <= f.tail[t] <= MAX_BUFFER
    ensures a <= f.tail[t] + 1
  {
    if n < f.tail[t] + 1 then n else f.tail[t] + 1
  }

  ghost predicate IsFlatRead(g: Flat, f: Flat, t: nat, n: nat)
    requires FlatOk(f) && t < TTYS
  {
    var a, base := Taken(f, t, n), MAX_BUFFER * t;
    && Copied(g.buf, f.buf, base, base + a, f.tail[t] + 1 - a)
    && g.tail == f.tail[t := f.tail[t] - a]
    && g.enter == false
  }

  /** What is left behind a read overwrites the last pending character of the previous terminal. */
  ghost predicate ReadClobbers(l: Lines, t: nat, n: nat)
    requires LinesOk(l) && t < TTYS
  {
    var left := ReadStep(l, t, n).pending[t];
    t > 0 && |l.pending[t - 1]| == MAX_BUFFER + 1 && left != [] && left[0] != l.pending[t - 1][MAX_BUFFER]
  }

  /** From every state, a read does what it means for all three terminals exactly when it clobbers nothing. */
  lemma ReadRefines(g: Flat, f: Flat, t: nat, n: nat)
    requires FlatOk(f) && t < TTYS && IsFlatRead(g, f, t, n)
    ensures FlatOk(g)
    ensures Meaning(g) == ReadStep(Meaning(f), t, n) <==> !ReadClobbers(Meaning(f), t, n)
  {
    hide Copied;
    var l := Meaning(f);
    ReadOwn(g, f, t, n);
    SameLines(g, ReadStep(l, t, n));
    forall u | 0 <= u < TTYS && u != t
      ensures PendingIn(g, u) == l.pending[u] <==> !(u + 1 == t && ReadClobbers(l, t, n))
    {
      ReadOther(g, f, t, n, u);
    }
    hide Meaning;
    hide PendingIn;
    assert forall u :: 0 <= u < TTYS && u != t ==> ReadStep(l, t, n).pending[u] == l.pending[u];
  }

  lemma ReadBytes(g: Flat, f: Flat, t: nat, n: nat, k: nat)
    requires FlatOk(f) && t < TTYS && IsFlatRead(g, f, t, n) && k < |f.buf|
    ensures var a, base := Taken(f, t, n), MAX_BUFFER * t;
            g.buf[k] == if base <= k < base + (f.tail[t] + 1 - a) then f.buf[k + a] else f.buf[k]
  {
    var a, base := Taken(f, t, n), MAX_BUFFER * t;
    assert g.buf[k] == ByteAfter(f.buf, base, base + a, f.tail[t] + 1 - a, k);
  }

  lemma ReadOwn(g: Flat, f: Flat, t: nat, n: nat)
    requires FlatOk(f) && t < TTYS && IsFlatRead(g, f, t, n)
    ensures FlatOk(g) && PendingIn(g, t) == ReadStep(Meaning(f), t, n).pending[t]
  {
    assert |g.buf| == |f.buf|;
    hide Copied;
    MeaningAt(f, t);
    hide Meaning;
    var a, now, want := Taken(f, t, n), PendingIn(g, t), PendingIn(f, t)[Taken(f, t, n)..];
    forall k | 0 <= k < |want|
      ensures now[k] == want[k]
    {
      ReadBytes(g, f, t, n, MAX_BUFFER * t + k);
    }
    assert now == want;
  }

  /** Bytes of another terminal's range change at most where the previous one had run over. */
  lemma ReadOtherBytes(g: Flat, f: Flat, t: nat, n: nat, u: nat, k: nat)
    requires FlatOk(f) && t < TTYS && u < TTYS && u != t && IsFlatRead(g, f, t, n) && k <= f.tail[u]
    ensures var a, i := Taken(f, t, n), MAX_BUFFER * u + k;
            g.buf[i] == if u + 1 == t && k == MAX_BUFFER && a <= f.tail[t] then f.buf[i + a] else f.buf[i]
  {
    ReadBytes(g, f, t, n, MAX_BUFFER * u + k);
    hide IsFlatRead;
  }

  lemma ReadOther(g: Flat, f: Flat, t: nat, n: nat, u: nat)
    requires FlatOk(f) && FlatOk(g) && t < TTYS && u < TTYS && u != t && IsFlatRead(g, f, t, n)
    ensures PendingIn(g, u) == Meaning(f).pending[u] <==> !(u + 1 == t && ReadClobbers(Meaning(f), t, n))
  {
    MeaningAt(f, t);
    MeaningAt(f, u);
    hide Meaning;
    var a, now, was := Taken(f, t, n), PendingIn(g, u), PendingIn(f, u);
    assert |now| == |was|;
    forall k | 0 <= k < |was|
      ensures now[k] == if u + 1 == t && k == MAX_BUFFER && a <= f.tail[t] then f.buf[MAX_BUFFER * t + a] else was[k]
    {
      ReadOtherBytes(g, f, t, n, u, k);
    }
    hide IsFlatRead;
    if u + 1 == t && |was| == MAX_BUFFER + 1 && a <= f.tail[t] {
      assert PendingIn(f, t)[a..][0] == f.buf[MAX_BUFFER * t + a];
      assert now[MAX_BUFFER] == f.buf[MAX_BUFFER * t + a];
    }
  }

  /** A read hands over the first pending characters, `n` of them or all there are, and takes as many. */
  lemma HandedIs(f: Flat, t: nat, n: nat)
    requires FlatOk(f) && t < TTYS
    ensures var p, h := PendingIn(f, t), Handed(Meaning(f), t, n);
            && h <= p && |h| == Taken(f, t, n) == (if n < |p| then n else |p|)
            && ReadStep(Meaning(f), t, n).pending[t] == p[|h|..]
  {
    MeaningAt(f, t);
    hide Meaning;
  }
}
