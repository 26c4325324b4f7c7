/** One blinking cell: its timing under the clock tick, and plain lists of such cells. */
module Blinkers {
  import opened Bytes

  const CELLS := 2000

  type word = w: int | 0 <= w < 0x1_0000

  datatype Blink = Blink(
    location: word, onChar: byte, offChar: byte, onLength: word, offLength: word, countdown: word, status: word)

  const EMPTY := Blink(0, 0, 0, 0, 0, 0, 0)

  // ---------------------------------------------------------------- one tick

  function SignedWord(w: word): int { if w < 0x8000 then w else w - 0x1_0000 }

  /** `decw` */
  function Decrement(w: word): word { if w == 0 then 0xFFFF else w - 1 }

  predicate IsOn(b: Blink) { b.status % 2 == 1 }

  function Toggled(status: word): word { if status % 2 == 1 then status - 1 else status + 1 }

  /** The countdown has run out at this tick (a signed comparison of 16-bit values). */
  predicate Expires(b: Blink) { SignedWord(Decrement(b.countdown)) <= 0 }

  function Tick(b: Blink): Blink {
    if !Expires(b) then b.(countdown := Decrement(b.countdown))
    else b.(countdown := if IsOn(b) then b.offLength else b.onLength, status := Toggled(b.status))
  }

  function Ticks(b: Blink, k: nat): Blink {
    if k == 0 then b else Tick(Ticks(b, k - 1))
  }

  /** A freshly added cell: on, with the whole on-length before it. */
  predicate Fresh(b: Blink) { b.status == 1 && b.countdown == b.onLength }

  /** How many ticks a phase of the given length lasts; 0 and lengths above 32768 last a single one. */
  function Lasting(length: word): (n: nat)
    ensures 1 <= n <= 0x8000
  {
    if 1 <= length <= 0x8000 then length else 1
  }

  /** Position in the on/off cycle after `k` ticks. */
  function Phase(k: nat, on: nat, off: nat): (r: nat)
    requires on >= 1 && off >= 1
    ensures r < on + off
  {
    if k == 0 then 0 else if Phase(k - 1, on, off) + 1 == on + off then 0 else Phase(k - 1, on, off) + 1
  }

  lemma {:induction false} PhaseIsRemainder(k: nat, on: nat, off: nat)
    requires on >= 1 && off >= 1
    ensures Phase(k, on, off) == k % (on + off)
  {
    var p := on + off;
    if k == 0 {
      assert 0 % p == 0;
    } else {
      PhaseIsRemainder(k - 1, on, off);
      NextRemainder(k - 1, p);
    }
  }

  lemma NextRemainder(k: nat, p: nat)
    requires p >= 2
    ensures (k + 1) % p == if k % p + 1 == p then 0 else k % p + 1
  {
    var q, r := k / p, k % p;
    assert k == q * p + r;
    if r + 1 == p {
      assert k + 1 == (q + 1) * p;
      RemainderOf(q + 1, p, 0);
    } else {
      RemainderOf(q, p, r + 1);
    }
  }

  lemma RemainderOf(q: nat, p: nat, r: nat)
    requires p > 0 && r < p
    ensures (q * p + r) % p == r
  {
    var n := q * p + r;
    SameQuotient(n / p, q, p, n % p, r);
  }

  lemma SameQuotient(d: int, q: int, p: int, m: int, r: int)
    requires p > 0 && 0 <= m < p && 0 <= r < p && d * p + m == q * p + r
    ensures d == q
  {
    if d > q {
      TimesGrows(q + 1, d, p);
    } else if d < q {
      TimesGrows(d + 1, q, p);
    }
  }

  lemma TimesGrows(a: int, b: int, p: int)
    requires a <= b && p > 0
    ensures a * p <= b * p
  {
  }

  /** State in terms of the position: the phase, and the length less what has elapsed of it. */
  ghost predicate InPhase(b: Blink, b0: Blink, r: nat) {
    var on := Lasting(b0.onLength);
    && b == b0.(countdown := b.countdown, status := b.status)
    && (r < on ==> b.status == 1 && b.countdown == b0.onLength - r)
    && (r >= on ==> b.status == 0 && b.countdown == b0.offLength - (r - on))
  }

  lemma {:induction false} InPhaseAfter(b0: Blink, k: nat)
    requires Fresh(b0)
    ensures InPhase(Ticks(b0, k), b0, Phase(k, Lasting(b0.onLength), Lasting(b0.offLength)))
  {
    if k > 0 {
      InPhaseAfter(b0, k - 1);
    }
  }

  /**
   For all 16-bit lengths: after k ticks the cell is on exactly when k mod (on + off) lies in the on
   part, and the countdown is what is left of the current part. `on` and `off` are the lengths
   themselves for every length in 1..32768.
   */
  lemma OscillatesForever(b0: Blink, k: nat)
    requires Fresh(b0)
    ensures var on, off := Lasting(b0.onLength), Lasting(b0.offLength);
            var r, b := k % (on + off), Ticks(b0, k);
            (IsOn(b) <==> r < on) && b.countdown == if r < on then b0.onLength - r else b0.offLength - (r - on)
  {
    InPhaseAfter(b0, k);
    PhaseIsRemainder(k, Lasting(b0.onLength), Lasting(b0.offLength));
  }

  /** The cell is on exactly in the on part of a cycle of the nominal lengths. */
  predicate OnNominally(b0: Blink, k: nat)
    requires b0.onLength + b0.offLength > 0
  {
    IsOn(Ticks(b0, k)) <==> k % (b0.onLength + b0.offLength) < b0.onLength
  }

  /** The nominal lengths describe the cycle at every tick exactly when both are in 1..32768. */
  lemma NominalCycle(b0: Blink)
    requires Fresh(b0) && b0.onLength + b0.offLength > 0
    ensures (forall k: nat :: OnNominally(b0, k)) <==> 1 <= b0.onLength <= 0x8000 && 1 <= b0.offLength <= 0x8000
  {
    var on, off := b0.onLength, b0.offLength;
    if Lasting(on) == on && Lasting(off) == off {
      forall k: nat ensures OnNominally(b0, k) { OscillatesForever(b0, k); }
    } else {
      var k := if on == 0 then 0 else if on > 0x8000 then 1 else if off == 0 then on else on + 1;
      FirstDeviation(b0, k);
    }
  }

  /** Where an overlong or empty phase first shows. */
  lemma FirstDeviation(b0: Blink, k: nat)
    requires Fresh(b0) && b0.onLength + b0.offLength > 0
    requires !(Lasting(b0.onLength) == b0.onLength && Lasting(b0.offLength) == b0.offLength)
    requires k == if b0.onLength == 0 then 0 else if b0.onLength > 0x8000 then 1
                  else if b0.offLength == 0 then b0.onLength else b0.onLength + 1
    ensures !OnNominally(b0, k)
  {
    var on: int, off: int := b0.onLength, b0.offLength;
    var p := Lasting(on) + Lasting(off);
    InPhaseAfter(b0, k);
    PhaseIsRemainder(k, Lasting(on), Lasting(off));
    if k == p {
      RemainderOf(1, p, 0);
    } else {
      RemainderOf(0, p, k);
    }
    if k == on + off {
      RemainderOf(1, on + off, 0);
    } else {
      RemainderOf(0, on + off, k);
    }
  }

  /** The timing part of `sync`. */
  function Synced(from: Blink, to: Blink): Blink {
    to.(onLength := from.onLength, offLength := from.offLength, countdown := from.countdown, status := from.status)
  }

  lemma {:induction false} SyncedForever(from: Blink, to: Blink, k: nat)
    ensures var a, b := Ticks(from, k), Ticks(Synced(from, to), k);
            a.status == b.status && a.countdown == b.countdown && a.onLength == b.onLength && a.offLength == b.offLength
    ensures Ticks(Synced(from, to), k).location == to.location && Ticks(from, k).location == from.location
  {
    if k > 0 {
      SyncedForever(from, to, k - 1);
    }
  }

  // ---------------------------------------------------------------- lists of cells

  /** Index of the first cell at `location`, or the length. */
  function FirstAt(l: seq<Blink>, location: word): (i: nat)
    ensures i <= |l| && (i < |l| ==> l[i].location == location)
    ensures forall j :: 0 <= j < i ==> l[j].location != location
  {
    if l == [] || l[0].location == location then 0 else 1 + FirstAt(l[1..], location)
  }

  function Removed(l: seq<Blink>, location: word): seq<Blink> {
    var i := FirstAt(l, location);
    if i < |l| then l[..i] + l[i + 1..] else l
  }

  function SyncedList(l: seq<Blink>, from: word, to: word): seq<Blink> {
    var i, j := FirstAt(l, from), FirstAt(l, to);
    if i < |l| && j < |l| then l[j := Synced(l[i], l[j])] else l
  }

  function TickAll(l: seq<Blink>): (r: seq<Blink>)
    ensures |r| == |l| && forall i :: 0 <= i < |l| ==> r[i] == Tick(l[i])
  {
    if l == [] then [] else [Tick(l[0])] + TickAll(l[1..])
  }

  function TickAllTimes(l: seq<Blink>, k: nat): (r: seq<Blink>)
    ensures |r| == |l|
  {
    if k == 0 then l else TickAll(TickAllTimes(l, k - 1))
  }

  lemma {:induction false} EachTicksAlone(l: seq<Blink>, k: nat, i: nat)
    requires i < |l|
    ensures TickAllTimes(l, k)[i] == Ticks(l[i], k)
  {
    if k > 0 {
      EachTicksAlone(l, k - 1, i);
    }
  }

  /**
   Two cells of a list, k ticks after a sync at their locations: same phase, same countdown, whatever
   else is in the list.
   */
  lemma SyncedCellsBlinkTogether(l: seq<Blink>, from: word, to: word, k: nat)
    requires FirstAt(l, from) < |l| && FirstAt(l, to) < |l|
    ensures var after := TickAllTimes(SyncedList(l, from, to), k);
            var a, b := after[FirstAt(l, from)], after[FirstAt(l, to)];
            a.location == from && b.location == to && a.status == b.status && a.countdown == b.countdown
  {
    var i, j := FirstAt(l, from), FirstAt(l, to);
    var l' := SyncedList(l, from, to);
    EachTicksAlone(l', k, i);
    EachTicksAlone(l', k, j);
    SyncedForever(l[i], l[j], k);
    SyncedForever(l[i], l[i], k);
    if i == j {
      assert l'[i] == l[i];
    }
  }

  /** A character written to the screen cell at a location. */
  datatype Draw = Draw(location: word, c: byte)

  function RedrawnOne(b: Blink): seq<Draw> {
    if Expires(b) then [Draw(b.location, if IsOn(b) then b.offChar else b.onChar)] else []
  }

  /** The cells a tick redraws, in list order. */
  function Redrawn(l: seq<Blink>): seq<Draw> {
    if l == [] then [] else RedrawnOne(l[0]) + Redrawn(l[1..])
  }

  /** What a tick draws is the character of the phase the cell is then in. */
  lemma {:induction false} RedrawMatchesPhase(l: seq<Blink>, i: nat)
    requires i < |l| && Expires(l[i])
    ensures Draw(l[i].location, if IsOn(Tick(l[i])) then l[i].onChar else l[i].offChar) in Redrawn(l)
  {
    if i > 0 {
      RedrawMatchesPhase(l[1..], i - 1);
    }
  }

  // ---------------------------------------------------------------- what remove, sync and redraw do, cell by cell

  /** Exactly the first cell at the location goes; without one nothing does. */
  lemma RemovedIs(a: seq<Blink>, c: Blink, b: seq<Blink>, location: word)
    requires forall x :: x in a ==> x.location != location
    ensures c.location == location ==> Removed(a + [c] + b, location) == a + b
    ensures Removed(a, location) == a
  {
    var l := a + [c] + b;
    assert forall k :: 0 <= k < |a| ==> l[k] == a[k] && a[k] in a;
    if c.location == location {
      assert l[|a|] == c;
      assert FirstAt(l, location) == |a|;
      assert l[..|a|] == a && l[|a| + 1..] == b;
    }
    assert FirstAt(a, location) == |a|;
  }

  /** The second cell takes the four timing fields and keeps the rest; every other cell stays as it is. */
  lemma SyncedIs(l: seq<Blink>, from: word, to: word, k: nat)
    requires k < |l|
    ensures var i, j, r := FirstAt(l, from), FirstAt(l, to), SyncedList(l, from, to);
            && |r| == |l|
            && r[k].location == l[k].location && r[k].onChar == l[k].onChar && r[k].offChar == l[k].offChar
            && (i < |l| && k == j ==>
                  && r[k].status == l[i].status && r[k].countdown == l[i].countdown
                  && r[k].onLength == l[i].onLength && r[k].offLength == l[i].offLength)
            && (i == |l| || k != j ==> r[k] == l[k])
  {
  }

  /** The cell expires, and `d` is its drawing with the character of its new phase. */
  predicate DrawnFor(b: Blink, d: Draw) {
    Expires(b) && d.location == b.location && d.c == if IsOn(Tick(b)) then b.onChar else b.offChar
  }

  lemma RedrawnOneIs(b: Blink, d: Draw)
    ensures |RedrawnOne(b)| == (if Expires(b) then 1 else 0) && (d in RedrawnOne(b) <==> DrawnFor(b, d))
  {
  }

  /** What a tick draws: a drawing for every cell that expires, and none for the others. */
  lemma {:induction false} RedrawnExactly(l: seq<Blink>, d: Draw)
    ensures d in Redrawn(l) <==> exists i :: 0 <= i < |l| && DrawnFor(l[i], d)
  {
    hide RedrawnOne;
    hide DrawnFor;
    if l != [] {
      var rest := l[1..];
      RedrawnOneIs(l[0], d);
      RedrawnExactly(rest, d);
      assert forall i :: 0 <= i < |rest| ==> rest[i] == l[i + 1];
      assert forall i :: 1 <= i < |l| ==> l[i] == rest[i - 1];
    }
  }

  /** Drawings come in list order. */
  lemma {:induction false} RedrawnInOrder(a: seq<Blink>, b: seq<Blink>)
    ensures Redrawn(a + b) == Redrawn(a) + Redrawn(b)
  {
    if a == [] {
      assert a + b == b;
    } else {
      assert (a + b)[0] == a[0] && (a + b)[1..] == a[1..] + b;
      RedrawnInOrder(a[1..], b);
    }
  }

  /** An expiring cell changes phase; any other keeps it and counts one down. */
  lemma ExpiryIs(b: Blink)
    ensures Expires(b) <==> b.countdown == 1 || b.countdown == 0 || b.countdown > 0x8000
    ensures if Expires(b) then IsOn(Tick(b)) != IsOn(b) else Tick(b) == b.(countdown := b.countdown - 1)
  {
  }
}
