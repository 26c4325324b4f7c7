/** What every run of the terminal driver keeps, delivers and loses. */
module TerminalRuns {
  import opened Config
  import opened Bytes
  import opened LineBuffer
  import opened Terminal

  /** A key typed on a terminal, or a read of up to `n` characters there. */
  datatype Act = Type(t: nat, c: byte) | Take(t: nat, n: nat)

  ghost predicate ActOk(a: Act) { a.t < TTYS }

  ghost function LineStep(l: Lines, a: Act): (r: Lines)
    requires LinesOk(l) && ActOk(a)
    ensures LinesOk(r)
  {
    match a
    case Type(t, c) => KeyStep(l, t, c)
    case Take(t, n) => ReadStep(l, t, n)
  }

  /** The key is stored; a terminal takes 1026 pending characters. */
  ghost predicate Accepted(l: Lines, a: Act)
    requires LinesOk(l) && ActOk(a)
  {
    a.Type? && Plain(a.c) ==> |l.pending[a.t]| <= MAX_BUFFER
  }

  /** What a terminal has delivered, and the text typed there with every backspace applied. */
  datatype Account = Account(lines: Lines, delivered: seq<seq<byte>>, text: seq<seq<byte>>)

  ghost predicate Balanced(b: Account) {
    && LinesOk(b.lines) && |b.delivered| == TTYS && |b.text| == TTYS
    && forall t :: 0 <= t < TTYS ==> b.text[t] == b.delivered[t] + b.lines.pending[t]
  }

  /** The typed text on its own terms: a backspace takes back the last character not yet delivered. */
  ghost function Edited(text: seq<byte>, delivered: nat, c: byte): seq<byte> {
    if c == BKSP then (if |text| > delivered then text[..|text| - 1] else text)
    else if c == NEWLINE then text
    else text + [c]
  }

  ghost function Settle(b: Account, a: Act): (r: Account)
    requires LinesOk(b.lines) && ActOk(a) && |b.delivered| == TTYS && |b.text| == TTYS
  {
    match a
    case Type(t, c) => Account(KeyStep(b.lines, t, c), b.delivered, b.text[t := Edited(b.text[t], |b.delivered[t]|, c)])
    case Take(t, n) =>
      Account(ReadStep(b.lines, t, n), b.delivered[t := b.delivered[t] + Handed(b.lines, t, n)], b.text)
  }

  /** A step keeps the account balanced exactly when its key is stored; delivered bytes are never taken back. */
  lemma StepBalances(b: Account, a: Act)
    requires Balanced(b) && ActOk(a)
    ensures Balanced(Settle(b, a)) <==> Accepted(b.lines, a)
    ensures forall t :: 0 <= t < TTYS ==> b.delivered[t] <= Settle(b, a).delivered[t]
  {
    var p, d := b.lines.pending[a.t], b.delivered[a.t];
    assert b.text[a.t] == d + p;
    match a
    case Type(t, c) =>
      if c == BKSP && p != [] {
        assert (d + p)[..|d + p| - 1] == d + p[..|p| - 1];
      } else if Plain(c) {
        assert (d + p) + [c] == d + (p + [c]);
        assert |(d + p) + [c]| != |d + p|;
      }
    case Take(t, n) =>
      var h := Handed(b.lines, t, n);
      assert (d + h) + p[|h|..] == d + p;
  }

  /** Every key of the run is stored. */
  ghost predicate AllAccepted(l: Lines, acts: seq<Act>)
    requires LinesOk(l) && forall a :: a in acts ==> ActOk(a)
    decreases |acts|
  {
    acts == [] || (Accepted(l, acts[0]) && AllAccepted(LineStep(l, acts[0]), acts[1..]))
  }

  ghost function AccountRun(b: Account, acts: seq<Act>): (r: Account)
    requires LinesOk(b.lines) && |b.delivered| == TTYS && |b.text| == TTYS && forall a :: a in acts ==> ActOk(a)
    ensures LinesOk(r.lines) && |r.delivered| == TTYS && |r.text| == TTYS
    decreases |acts|
  {
    if acts == [] then b else AccountRun(Settle(b, acts[0]), acts[1..])
  }

  /** Balanced at the start and after every act. */
  ghost predicate AlwaysBalanced(b: Account, acts: seq<Act>)
    requires LinesOk(b.lines) && |b.delivered| == TTYS && |b.text| == TTYS && forall a :: a in acts ==> ActOk(a)
    decreases |acts|
  {
    Balanced(b) && (acts != [] ==> AlwaysBalanced(Settle(b, acts[0]), acts[1..]))
  }

  /**
   On every terminal, at every point of a run, the delivered bytes followed by the pending ones are the
   typed text, exactly when every key is stored; delivered bytes are never taken back.
   */
  lemma {:induction false} NothingLostNothingInvented(b: Account, acts: seq<Act>)
    requires Balanced(b) && forall a :: a in acts ==> ActOk(a)
    ensures AlwaysBalanced(b, acts) <==> AllAccepted(b.lines, acts)
    ensures AlwaysBalanced(b, acts) ==>
              && Balanced(AccountRun(b, acts))
              && forall t :: 0 <= t < TTYS ==> b.delivered[t] <= AccountRun(b, acts).delivered[t]
    decreases |acts|
  {
    if acts != [] {
      StepBalances(b, acts[0]);
      hide Balanced;
      if Balanced(Settle(b, acts[0])) {
        NothingLostNothingInvented(Settle(b, acts[0]), acts[1..]);
      }
    }
  }

  // ---------------------------------------------------------------- memory refines meaning, over runs

  ghost predicate FlatStep(f: Flat, a: Act, g: Flat)
    requires FlatOk(f) && ActOk(a)
  {
    match a
    case Type(t, c) => g == FlatKey(f, t, c)
    case Take(t, n) => IsFlatRead(g, f, t, n)
  }

  /** The act overwrites a pending character of a neighbour. */
  ghost predicate ActClobbers(l: Lines, a: Act)
    requires LinesOk(l) && ActOk(a)
  {
    match a
    case Type(t, c) => Clobbers(l, t, c)
    case Take(t, n) => ReadClobbers(l, t, n)
  }

  /** A run of the driver's memory: each state follows from the previous one. */
  ghost predicate FlatRun(states: seq<Flat>, acts: seq<Act>)
    requires forall a :: a in acts ==> ActOk(a)
    decreases |acts|
  {
    |states| == |acts| + 1 && FlatOk(states[0]) &&
    (acts != [] ==> FlatStep(states[0], acts[0], states[1]) && FlatRun(states[1..], acts[1..]))
  }

  ghost function LineRun(l: Lines, acts: seq<Act>): (r: Lines)
    requires LinesOk(l) && forall a :: a in acts ==> ActOk(a)
    ensures LinesOk(r)
    decreases |acts|
  {
    if acts == [] then l else LineRun(LineStep(l, acts[0]), acts[1..])
  }

  /** The state of three separate buffers, started as `l`, at the start and after every act. */
  ghost predicate AlwaysMeans(states: seq<Flat>, l: Lines, acts: seq<Act>)
    requires LinesOk(l) && (forall a :: a in acts ==> ActOk(a)) && FlatRun(states, acts)
    decreases |acts|
  {
    Meaning(states[0]) == l && (acts != [] ==> AlwaysMeans(states[1..], LineStep(l, acts[0]), acts[1..]))
  }

  /** No act of the run, on three separate buffers, would overwrite a neighbour's character in memory. */
  ghost predicate NoClobber(l: Lines, acts: seq<Act>)
    requires LinesOk(l) && forall a :: a in acts ==> ActOk(a)
    decreases |acts|
  {
    acts == [] || (!ActClobbers(l, acts[0]) && NoClobber(LineStep(l, acts[0]), acts[1..]))
  }

  lemma StepRefines(f: Flat, a: Act, g: Flat)
    requires FlatOk(f) && ActOk(a) && FlatStep(f, a, g)
    ensures FlatOk(g) && (Meaning(g) == LineStep(Meaning(f), a) <==> !ActClobbers(Meaning(f), a))
  {
    match a
    case Type(t, c) => KeyRefines(f, t, c);
    case Take(t, n) => ReadRefines(g, f, t, n);
  }

  /** The adjoining buffers in memory behave as three separate ones throughout, exactly when no act clobbers. */
  lemma {:induction false} RunRefines(states: seq<Flat>, acts: seq<Act>)
    requires (forall a :: a in acts ==> ActOk(a)) && FlatRun(states, acts)
    ensures AlwaysMeans(states, Meaning(states[0]), acts) <==> NoClobber(Meaning(states[0]), acts)
    ensures NoClobber(Meaning(states[0]), acts) ==>
              var last := states[|states| - 1]; FlatOk(last) && Meaning(last) == LineRun(Meaning(states[0]), acts)
    decreases |acts|
  {
    if acts != [] {
      StepRefines(states[0], acts[0], states[1]);
      hide LineStep;
      hide ActClobbers;
      RunRefines(states[1..], acts[1..]);
    }
  }

  /** The key finds room in its own buffer. */
  ghost predicate HasRoom(l: Lines, a: Act)
    requires LinesOk(l) && ActOk(a)
  {
    a.Type? && Plain(a.c) ==> |l.pending[a.t]| < MAX_BUFFER
  }

  ghost predicate Roomy(l: Lines, acts: seq<Act>)
    requires LinesOk(l) && forall a :: a in acts ==> ActOk(a)
    decreases |acts|
  {
    acts == [] || (HasRoom(l, acts[0]) && Roomy(LineStep(l, acts[0]), acts[1..]))
  }

  /** While every key finds room in its own buffer, keys are stored and nothing is clobbered. */
  lemma {:induction false} RoomyIsSafe(l: Lines, acts: seq<Act>)
    requires LinesOk(l) && (forall a :: a in acts ==> ActOk(a)) && Roomy(l, acts)
    requires forall t :: 0 <= t < TTYS ==> |l.pending[t]| <= MAX_BUFFER
    ensures NoClobber(l, acts) && AllAccepted(l, acts)
    decreases |acts|
  {
    if acts != [] {
      RoomyIsSafe(LineStep(l, acts[0]), acts[1..]);
    }
  }

  // ---------------------------------------------------------------- runs of the driver's own calls

  /** A keyboard write, a write to standard output, or a read of up to `n` characters. */
  datatype Call = Keyboard(t: nat, bytes: seq<byte>) | Output(bytes: seq<byte>) | Reading(t: nat, n: nat)

  ghost predicate CallOk(c: Call) { c.Output? || c.t < TTYS }

  /** The keys of a keyboard write that act: up to the first backspace or newline. */
  ghost function KeyActs(t: nat, bytes: seq<byte>): (r: seq<Act>)
    ensures t < TTYS ==> forall a :: a in r ==> ActOk(a)
  {
    if bytes == [] then []
    else [Type(t, bytes[0])] + if Plain(bytes[0]) then KeyActs(t, bytes[1..]) else []
  }

  /** The write ends with Enter. */
  predicate Enters(bytes: seq<byte>) {
    bytes != [] && (bytes[0] == NEWLINE || (Plain(bytes[0]) && Enters(bytes[1..])))
  }

  /** A read waits for Enter; without it the call does not happen. */
  ghost function CallActs(enter: bool, c: Call): (r: seq<Act>)
    ensures CallOk(c) ==> forall a :: a in r ==> ActOk(a)
  {
    match c
    case Keyboard(t, bytes) => KeyActs(t, bytes)
    case Output(_) => []
    case Reading(t, n) => if enter then [Take(t, n)] else []
  }

  function EnterAfter(enter: bool, c: Call): bool {
    match c
    case Keyboard(_, bytes) => enter || Enters(bytes)
    case Output(_) => enter
    case Reading(_, _) => false
  }

  ghost function ActsOf(enter: bool, calls: seq<Call>): (r: seq<Act>)
    ensures (forall c :: c in calls ==> CallOk(c)) ==> forall a :: a in r ==> ActOk(a)
    decreases |calls|
  {
    if calls == [] then [] else CallActs(enter, calls[0]) + ActsOf(EnterAfter(enter, calls[0]), calls[1..])
  }

  lemma ActsUnfold(enter: bool, calls: seq<Call>, i: nat)
    requires i < |calls|
    ensures ActsOf(enter, calls[i..]) == CallActs(enter, calls[i]) + ActsOf(EnterAfter(enter, calls[i]), calls[i + 1..])
  {
    assert calls[i..][1..] == calls[i + 1..];
  }

  /** Nothing delivered yet; the text is what is pending. */
  ghost function Opened(l: Lines): (b: Account)
    requires LinesOk(l)
    ensures Balanced(b) && b.lines == l
  {
    Account(l, [[], [], []], l.pending)
  }

  /** While nothing is clobbered, the account says what is pending and what has been delivered. */
  ghost predicate Explains(b: Account, acts: seq<Act>, l: Lines, delivered: seq<seq<byte>>)
    requires Balanced(b) && forall a :: a in acts ==> ActOk(a)
  {
    NoClobber(b.lines, acts) ==> AccountRun(b, acts).lines == l && AccountRun(b, acts).delivered == delivered
  }

  /** Runs can be taken in two parts. */
  lemma {:induction false} RunInParts(b: Account, acts: seq<Act>, more: seq<Act>)
    requires LinesOk(b.lines) && |b.delivered| == TTYS && |b.text| == TTYS
    requires (forall a :: a in acts ==> ActOk(a)) && forall a :: a in more ==> ActOk(a)
    ensures forall a :: a in acts + more ==> ActOk(a)
    ensures var mid := AccountRun(b, acts);
            && AccountRun(b, acts + more) == AccountRun(mid, more)
            && (NoClobber(b.lines, acts + more) <==> NoClobber(b.lines, acts) && NoClobber(mid.lines, more))
    decreases |acts|
  {
    if acts == [] {
      assert acts + more == more;
    } else {
      hide ActClobbers;
      hide Settle;
      hide LineStep;
      hide ActOk;
      SettleSteps(b, acts[0]);
      RunInParts(Settle(b, acts[0]), acts[1..], more);
      assert (acts + more)[0] == acts[0] && (acts + more)[1..] == acts[1..] + more;
    }
  }

  lemma SettleSteps(b: Account, a: Act)
    requires LinesOk(b.lines) && |b.delivered| == TTYS && |b.text| == TTYS && ActOk(a)
    ensures Settle(b, a).lines == LineStep(b.lines, a) && LinesOk(Settle(b, a).lines)
    ensures |Settle(b, a).delivered| == TTYS && |Settle(b, a).text| == TTYS
  {
  }

  /** A keyboard write on memory and on the account. */
  lemma {:induction false} KeysRun(f: Flat, b: Account, t: nat, bytes: seq<byte>)
    requires FlatOk(f) && t < TTYS && b.lines == Meaning(f) && |b.delivered| == TTYS && |b.text| == TTYS
    requires NoClobber(b.lines, KeyActs(t, bytes))
    ensures var after := AccountRun(b, KeyActs(t, bytes));
            after.lines == Meaning(FlatKeys(f, t, bytes)) && after.delivered == b.delivered
    decreases |bytes|
  {
    if bytes != [] {
      var a, acts := Type(t, bytes[0]), KeyActs(t, bytes);
      hide Meaning;
      hide ActClobbers;
      hide FlatKey;
      assert acts[0] == a;
      SettleSteps(b, a);
      StepRefines(f, a, FlatKey(f, t, bytes[0]));
      if Plain(bytes[0]) {
        assert acts[1..] == KeyActs(t, bytes[1..]);
        KeysRun(FlatKey(f, t, bytes[0]), Settle(b, a), t, bytes[1..]);
      } else {
        assert acts[1..] == [];
      }
    }
  }

  lemma {:induction false} KeysEnter(f: Flat, t: nat, bytes: seq<byte>)
    requires FlatOk(f) && t < TTYS
    ensures FlatKeys(f, t, bytes).enter <==> f.enter || Enters(bytes)
    decreases |bytes|
  {
    if bytes != [] && Plain(bytes[0]) {
      KeysEnter(FlatKey(f, t, bytes[0]), t, bytes[1..]);
    }
  }

  /** A read on memory and on the account. */
  lemma ReadRun(f: Flat, g: Flat, b: Account, t: nat, n: nat)
    requires FlatOk(f) && t < TTYS && b.lines == Meaning(f) && |b.delivered| == TTYS && |b.text| == TTYS
    requires IsFlatRead(g, f, t, n) && NoClobber(b.lines, [Take(t, n)])
    ensures FlatOk(g)
    ensures var after := AccountRun(b, [Take(t, n)]);
            && after.lines == Meaning(g)
            && after.delivered == b.delivered[t := b.delivered[t] + PendingIn(f, t)[..Taken(f, t, n)]]
  {
    var a := Take(t, n);
    StepRefines(f, a, g);
    MeaningAt(f, t);
    SettleSteps(b, a);
    assert [a][1..] == [];
    assert AccountRun(b, [a]) == Settle(b, a);
    hide Meaning;
    hide IsFlatRead;
    assert Handed(b.lines, t, n) == PendingIn(f, t)[..Taken(f, t, n)];
  }

  /** One call of a run. */
  method Perform(d: Driver, c: Call, dest: array<byte>, before: seq<seq<byte>>, ghost b: Account, ghost acts: seq<Act>)
    returns (delivered: seq<seq<byte>>)
    requires FlatOk(d.State()) && dest != d.buf && dest.Length > MAX_BUFFER + 1 && CallOk(c)
    requires Balanced(b) && |before| == TTYS && forall a :: a in acts ==> ActOk(a)
    requires Explains(b, acts, Meaning(d.State()), before)
    modifies d, d.buf, d.tail, dest
    ensures FlatOk(d.State()) && |delivered| == TTYS && d.enterStatus == EnterAfter(old(d.enterStatus), c)
    ensures var more := CallActs(old(d.enterStatus), c);
            (forall a :: a in more ==> ActOk(a)) && Explains(b, acts + more, Meaning(d.State()), delivered)
  {
    hide Meaning;
    hide NoClobber;
    hide AccountRun;
    hide IsFlatRead;
    ghost var f, more := d.State(), CallActs(d.enterStatus, c);
    ghost var mid := AccountRun(b, acts);
    RunInParts(b, acts, more);
    delivered := before;
    match c
    case Output(bytes) =>
      var _, _ := d.Write(1, 0, bytes);
      assert acts + more == acts;
    case Keyboard(t, bytes) =>
      var _, _ := d.Write(0, t, bytes);
      KeysEnter(f, t, bytes);
      if NoClobber(b.lines, acts + more) {
        KeysRun(f, mid, t, bytes);
      }
    case Reading(t, n) =>
      if d.enterStatus {
        var r := d.Read(t, dest, n);
        FlatReadOk(f, d.State(), t, n);
        delivered := before[t := before[t] + dest[..r]];
        assert dest[..r] == PendingIn(f, t)[..r] by {
          if f.tail[t] > -1 {
            assert PendingIn(f, t)[..r] == dest[..][..r];
          }
        }
        if NoClobber(b.lines, acts + more) {
          ReadRun(f, d.State(), mid, t, n);
        }
      } else {
        assert acts + more == acts;
      }
  }

  lemma FlatReadOk(f: Flat, g: Flat, t: nat, n: nat)
    requires FlatOk(f) && t < TTYS && IsFlatRead(g, f, t, n)
    ensures FlatOk(g) && !g.enter
  {
    ReadOwn(g, f, t, n);
  }

  /**
   Any run of keyboard writes, standard output and reads. As long as nothing is clobbered, what has been
   delivered and what is pending are those of three separate buffers; if also every key is stored, both
   together are the typed text.
   */
  method Play(d: Driver, calls: seq<Call>, dest: array<byte>) returns (delivered: seq<seq<byte>>)
    requires FlatOk(d.State()) && dest != d.buf && dest.Length > MAX_BUFFER + 1 && forall c :: c in calls ==> CallOk(c)
    modifies d, d.buf, d.tail, dest
    ensures FlatOk(d.State()) && |delivered| == TTYS
    ensures var l, acts := old(Meaning(d.State())), ActsOf(old(d.enterStatus), calls);
            var account := AccountRun(Opened(l), acts);
            NoClobber(l, acts) ==>
              && Meaning(d.State()) == account.lines && delivered == account.delivered
              && (AllAccepted(l, acts) ==> Balanced(account))
  {
    hide FlatOk;
    hide Meaning;
    hide Balanced;
    hide NoClobber;
    hide AccountRun;
    hide AllAccepted;
    ghost var b := Opened(Meaning(d.State()));
    ghost var acts: seq<Act> := [];
    ghost var goal := ActsOf(d.enterStatus, calls);
    delivered := [[], [], []];
    RunStarts(b);
    assert calls[0..] == calls;
    for i := 0 to |calls|
      invariant FlatOk(d.State()) && |delivered| == TTYS && forall a :: a in acts ==> ActOk(a)
      invariant acts + ActsOf(d.enterStatus, calls[i..]) == goal
      invariant Explains(b, acts, Meaning(d.State()), delivered)
    {
      ghost var more := CallActs(d.enterStatus, calls[i]);
      ActsUnfold(d.enterStatus, calls, i);
      Associative(acts, more, ActsOf(EnterAfter(d.enterStatus, calls[i]), calls[i + 1..]));
      delivered := Perform(d, calls[i], dest, delivered, b, acts);
      acts := acts + more;
    }
    assert acts == goal;
    if AllAccepted(b.lines, acts) {
      NothingLostNothingInvented(b, acts);
    }
  }

  lemma RunStarts(b: Account)
    requires Balanced(b) && b.delivered == [[], [], []]
    ensures Explains(b, [], b.lines, [[], [], []])
  {
  }

  // ---------------------------------------------------------------- a clobbered neighbour

  const LETTER: byte := 65

  function Typing(t: nat, n: nat): seq<Act> {
    seq(n, _ => Type(t, LETTER))
  }

  /** Typing `n` letters on one terminal appends them there and leaves the others alone. */
  lemma {:induction false} AfterTyping(l: Lines, t: nat, n: nat)
    requires LinesOk(l) && t < TTYS && |l.pending[t]| + n <= MAX_BUFFER
    ensures var r := LineRun(l, Typing(t, n));
            |r.pending[t]| == |l.pending[t]| + n && forall u :: 0 <= u < TTYS && u != t ==> r.pending[u] == l.pending[u]
    decreases n
  {
    if n > 0 {
      assert Typing(t, n)[0] == Type(t, LETTER) && Typing(t, n)[1..] == Typing(t, n - 1);
      AfterTyping(LineStep(l, Type(t, LETTER)), t, n - 1);
    }
  }

  const EMPTY_LINES := Lines([[], [], []], false)

  /** A B typed on terminal 1 and 1025 letters on terminal 0: the next letter overwrites the B. */
  lemma ClobberingHappens()
    ensures var l := LineRun(LineStep(EMPTY_LINES, Type(1, 66)), Typing(0, MAX_BUFFER));
            ClobbersNext(l, 0, LETTER)
  {
    AfterTyping(LineStep(EMPTY_LINES, Type(1, 66)), 0, MAX_BUFFER);
  }

  /** 1026 letters typed on terminal 0: a B then typed on terminal 1 overwrites the last of them. */
  lemma ClobberingHappensBackwards()
    ensures var l := LineRun(EMPTY_LINES, Typing(0, MAX_BUFFER));
            && !Clobbers(l, 0, LETTER) && Accepted(l, Type(0, LETTER))
            && ClobbersPrevious(KeyStep(l, 0, LETTER), 1, 66)
  {
    AfterTyping(EMPTY_LINES, 0, MAX_BUFFER);
  }
}
