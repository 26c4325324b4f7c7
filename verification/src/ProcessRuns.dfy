/** What holds after every run of execute, halt and terminal switches, and what a nested run undoes. */
module ProcessRuns {
  import opened Config
  import opened Processes
  import Paging

  // ---------------------------------------------------------------- chains

  /** From the root of its terminal down to `p`, along the parent links. */
  ghost function Chain(k: Kernel, depth: seq<nat>, p: nat): (c: seq<nat>)
    requires Inv(k, depth) && p < SLOTS && k.live[p]
    decreases depth[p]
  {
    assert Linked(k, depth, p);
    if depth[p] == 0 then [p] else Chain(k, depth, k.pcbs[p].parent) + [p]
  }

  /** Element `i` of a chain is live on the terminal, at level `i`, and linked to element `i` - 1. */
  ghost predicate OnChain(k: Kernel, depth: seq<nat>, c: seq<nat>, i: nat, tty: nat)
    requires Shaped(k) && |depth| == SLOTS && i < |c|
  {
    c[i] < SLOTS && k.live[c[i]] && k.pcbs[c[i]].tty == tty && depth[c[i]] == i
    && k.pcbs[c[i]].parent == if i == 0 then c[i] else c[i - 1]
  }

  lemma {:induction false} ChainShape(k: Kernel, depth: seq<nat>, p: nat)
    requires Inv(k, depth) && p < SLOTS && k.live[p]
    ensures var c := Chain(k, depth, p);
            |c| == depth[p] + 1 && c[depth[p]] == p &&
                forall i :: 0 <= i < |c| ==> OnChain(k, depth, c, i, k.pcbs[p].tty)
    decreases depth[p]
  {
    hide Distinct;
    hide TopOk;
    var c, tty := Chain(k, depth, p), k.pcbs[p].tty;
    LinkedIs(k, depth, p);
    if depth[p] > 0 {
      var parent := k.pcbs[p].parent;
      ChainShape(k, depth, parent);
      var up := Chain(k, depth, parent);
      forall i | 0 <= i < |c|
        ensures OnChain(k, depth, c, i, tty)
      {
        if i < |up| {
          assert OnChain(k, depth, up, i, tty);
        }
      }
    }
  }

  lemma LinkedIs(k: Kernel, depth: seq<nat>, p: nat)
    requires Inv(k, depth) && p < SLOTS && k.live[p]
    ensures Linked(k, depth, p)
    ensures var c := Chain(k, depth, p);
            if depth[p] == 0 then c == [p] else c == Chain(k, depth, k.pcbs[p].parent) + [p]
  {
    assert Linked(k, depth, p);
  }

  /** From a root that is its own parent, link by link without repetition, to the top. */
  ghost predicate IsChain(k: Kernel, c: seq<nat>, top: nat)
    requires Shaped(k)
  {
    && c != [] && c[|c| - 1] == top && (forall i :: 0 <= i < |c| ==> c[i] < SLOTS)
    && k.pcbs[c[0]].parent == c[0]
    && (forall i :: 1 <= i < |c| ==> k.pcbs[c[i]].parent == c[i - 1])
    && (forall i, j :: 0 <= i < j < |c| ==> c[i] != c[j])
  }

  lemma ChainIsChain(k: Kernel, depth: seq<nat>, c: seq<nat>, tty: nat)
    requires Shaped(k) && |depth| == SLOTS && c != [] && forall i :: 0 <= i < |c| ==> OnChain(k, depth, c, i, tty)
    ensures IsChain(k, c, c[|c| - 1])
  {
    assert OnChain(k, depth, c, 0, tty);
    forall i | 0 <= i < |c|
      ensures c[i] < SLOTS && depth[c[i]] == i && (i > 0 ==> k.pcbs[c[i]].parent == c[i - 1])
    {
      assert OnChain(k, depth, c, i, tty);
    }
  }

  /** The live slots of an open terminal are exactly one chain, which ends in its top process. */
  lemma TerminalIsAChain(k: Kernel, depth: seq<nat>, tty: nat)
    requires Inv(k, depth) && tty < TTYS && k.top[tty] != UNOPENED
    ensures k.top[tty] < SLOTS && k.live[k.top[tty]]
    ensures IsChain(k, Chain(k, depth, k.top[tty]), k.top[tty])
    ensures Members(k, Chain(k, depth, k.top[tty]), tty) && OneChain(k, tty)
  {
    assert TopOk(k, depth, tty);
    var top := k.top[tty];
    var c := Chain(k, depth, top);
    ChainShape(k, depth, top);
    ChainIsChain(k, depth, c, tty);
    forall p | 0 <= p < SLOTS
      ensures p in c <==> k.live[p] && k.pcbs[p].tty == tty
    {
      ChainMember(k, depth, c, tty, p);
    }
  }

  /** The live slots of terminal `t` form one chain that ends in its top process. */
  ghost predicate OneChain(k: Kernel, t: nat)
    requires Shaped(k) && t < TTYS
  {
    exists c :: IsChain(k, c, k.top[t]) && Members(k, c, t)
  }

  ghost predicate Members(k: Kernel, c: seq<nat>, t: nat)
    requires Shaped(k)
  {
    forall p :: 0 <= p < SLOTS ==> (p in c <==> k.live[p] && k.pcbs[p].tty == t)
  }

  lemma ChainMember(k: Kernel, depth: seq<nat>, c: seq<nat>, tty: nat, p: nat)
    requires Inv(k, depth) && tty < TTYS && k.top[tty] != UNOPENED && p < SLOTS
    requires k.top[tty] < SLOTS && |c| == depth[k.top[tty]] + 1 &&
        forall i :: 0 <= i < |c| ==> OnChain(k, depth, c, i, tty)
    ensures p in c <==> k.live[p] && k.pcbs[p].tty == tty
  {
    hide Linked;
    assert TopOk(k, depth, tty);
    if p in c {
      var i :| 0 <= i < |c| && c[i] == p;
      assert OnChain(k, depth, c, i, tty);
    }
    if k.live[p] && k.pcbs[p].tty == tty {
      var q := c[depth[p]];
      assert OnChain(k, depth, c, depth[p], tty);
      assert Distinct(k, depth, p, q);
    }
  }

  // ---------------------------------------------------------------- every run from boot

  ghost predicate AdmissibleRun(k: Kernel, es: seq<Event>)
    requires Good(k) && Shaped(k)
    decreases |es|
  {
    es == [] || (Admissible(k, es[0]) && AdmissibleRun(Step(k, es[0]), es[1..]))
  }

  ghost function Run(k: Kernel, es: seq<Event>): (r: Kernel)
    requires Good(k) && Shaped(k) && AdmissibleRun(k, es)
    ensures Good(r) && Shaped(r)
    decreases |es|
  {
    if es == [] then k else Run(Step(k, es[0]), es[1..])
  }

  ghost function AfterBoot(): (k: Kernel)
    ensures Good(k) && Shaped(k)
  {
    BootInv();
    Boot()
  }

  /**
   After boot and any admissible run: the running process is the active terminal's top, its memory and
   its kernel stack are the ones in use, slot 0 is terminal 0's root, every live process belongs to an
   open terminal, and the processes of every open terminal are one chain.
   */
  lemma EveryRunIsSound(es: seq<Event>)
    requires AdmissibleRun(AfterBoot(), es)
    ensures var k := Run(AfterBoot(), es);
            && k.running == k.top[k.active] && k.live[k.running] && k.pcbs[k.running].tty == k.active
            && k.page == k.running && k.esp0 == Esp0(k.running) && !k.nextIsRoot
            && k.live[0] && k.pcbs[0] == Pcb(0, 0)
            && (forall p :: 0 <= p < SLOTS && k.live[p] ==> k.pcbs[p].tty < TTYS && k.top[k.pcbs[p].tty] != UNOPENED)
            && (forall t :: 0 <= t < TTYS && k.top[t] != UNOPENED ==> OneChain(k, t))
  {
    hide OneChain;
    var k := Run(AfterBoot(), es);
    var depth :| Inv(k, depth);
    RunningIsLive(k, depth);
    assert forall p :: 0 <= p < SLOTS && k.live[p] ==> Linked(k, depth, p);
    forall t | 0 <= t < TTYS && k.top[t] != UNOPENED
      ensures OneChain(k, t)
    {
      TerminalIsAChain(k, depth, t);
    }
  }

  /** In every such state a user access reaches only the running process's own 4 MB or the video page. */
  lemma RunningSeesOnlyItself(es: seq<Event>, video: bool, address: nat)
    requires AdmissibleRun(AfterBoot(), es)
    requires Paging.UserView(Paging.Space(true, Run(AfterBoot(), es).page, video), address).Reaches?
    ensures var k := Run(AfterBoot(), es);
            var own, p := Paging.FrameOf(k.running), Paging.UserView(Paging.Space(true, k.page, video),
                address).physical;
            own <= p < own + Paging.FOUR_MEG || 0xB8000 <= p < 0xB9000
  {
    EveryRunIsSound(es);
  }

  // ---------------------------------------------------------------- other terminals

  /** Terminal `u` has the same top and the same processes, with the same links, in both states. */
  ghost predicate SameTerminal(a: Kernel, b: Kernel, u: nat)
    requires Shaped(a) && Shaped(b) && u < TTYS
  {
    && a.top[u] == b.top[u]
    && forall p :: 0 <= p < SLOTS ==> SameOn(a, b, u, p)
  }

  ghost predicate SameOn(a: Kernel, b: Kernel, u: nat, p: nat)
    requires Shaped(a) && Shaped(b) && p < SLOTS
  {
    ((a.live[p] && a.pcbs[p].tty == u) <==> (b.live[p] && b.pcbs[p].tty == u))
    && (a.live[p] && a.pcbs[p].tty == u ==> a.pcbs[p] == b.pcbs[p])
  }

  /** The terminal an event works on: the one switched to, else the active one. */
  ghost function Worked(k: Kernel, e: Event): nat {
    if e.SwitchEvent? then e.tty else k.active
  }

  /** No event touches the processes of a terminal other than the one it works on. */
  lemma OtherTerminalsUntouched(k: Kernel, e: Event, u: nat)
    requires Good(k) && Shaped(k) && Admissible(k, e) && u < TTYS && u != Worked(k, e)
    ensures SameTerminal(k, Step(k, e), u)
  {
    hide Execute;
    hide Halt;
    hide SwitchTty;
    hide SameTerminal;
    hide Distinct;
    var depth :| Inv(k, depth);
    RunningIsLive(k, depth);
    match e
    case ExecuteEvent(valid) => ExecuteTouchesOnlyActive(k, valid, u);
    case HaltEvent => HaltTouchesOnlyActive(k, u);
    case SwitchEvent(tty) =>
      assert TopOk(k, depth, tty);
      SwitchTouchesOnlyItsTerminal(k, tty, u);
  }

  lemma HaltTouchesOnlyActive(k: Kernel, u: nat)
    requires Shaped(k) && u < TTYS && u != k.active && k.live[k.running] && k.pcbs[k.running].tty == k.active
    requires k.pcbs[k.running].parent < SLOTS && k.live[k.pcbs[k.running].parent]
    requires k.pcbs[k.pcbs[k.running].parent].tty == k.active
    ensures Shaped(Halt(k, true)) && SameTerminal(k, Halt(k, true), u)
  {
    var p := k.running;
    if k.pcbs[p].parent == p {
      var f := k.(live := k.live[p := false], nextIsRoot := true);
      ExecuteTouchesOnlyActive(f, true, u);
      hide Execute;
      assert SameTerminal(k, f, u);
      TouchesTransitive(k, f, Execute(f, true), u);
    }
  }

  lemma SwitchTouchesOnlyItsTerminal(k: Kernel, tty: nat, u: nat)
    requires Shaped(k) && u < TTYS && u != tty && tty < TTYS && (k.top[tty] == UNOPENED || k.top[tty] < SLOTS)
    ensures Shaped(SwitchTty(k, tty, true)) && SameTerminal(k, SwitchTty(k, tty, true), u)
  {
    if k.top[tty] == UNOPENED {
      var f := k.(active := tty, nextIsRoot := true);
      ExecuteTouchesOnlyActive(f, true, u);
      hide Execute;
      assert SameTerminal(k, f, u);
      TouchesTransitive(k, f, Execute(f, true), u);
    }
  }

  lemma ExecuteTouchesOnlyActive(k: Kernel, valid: bool, u: nat)
    requires Shaped(k) && u < TTYS && u != k.active
    ensures Shaped(Execute(k, valid)) && SameTerminal(k, Execute(k, valid), u)
  {
  }

  lemma TouchesTransitive(a: Kernel, b: Kernel, c: Kernel, u: nat)
    requires Shaped(a) && Shaped(b) && Shaped(c) && u < TTYS && SameTerminal(a, b, u) && SameTerminal(b, c, u)
    ensures SameTerminal(a, c, u)
  {
    forall p | 0 <= p < SLOTS
      ensures SameOn(a, c, u, p)
    {
      assert SameOn(a, b, u, p) && SameOn(b, c, u, p);
    }
  }

  /**
   A switch to an open terminal touches no process, no parent link, no top and not `curr_process`; it only
   changes which process runs. A switch to a new terminal takes one free slot and touches nothing else.
   */
  lemma SwitchTouchesNoProcess(k: Kernel, tty: nat)
    requires Good(k) && Shaped(k) && Admissible(k, SwitchEvent(tty))
    ensures var r := Step(k, SwitchEvent(tty));
            && r.active == tty && r.running == r.top[tty]
            && (k.top[tty] != UNOPENED ==>
                  && r.live == k.live && r.pcbs == k.pcbs && r.top == k.top && r.curr == k.curr
                  && forall u :: 0 <= u < TTYS ==> SameTerminal(k, r, u))
            && (k.top[tty] == UNOPENED ==> TakesOneSlot(k, r, tty))
  {
    var depth :| Inv(k, depth);
    assert TopOk(k, depth, tty);
    hide Linked;
    hide Distinct;
  }

  /** One slot that was free holds a root of terminal `tty`, its only and top process; the rest is as before. */
  ghost predicate TakesOneSlot(k: Kernel, r: Kernel, tty: nat)
    requires Shaped(k) && Shaped(r) && tty < TTYS
  {
    var slot := r.running;
    && !k.live[slot] && r.live == k.live[slot := true] && r.pcbs == k.pcbs[slot := Pcb(slot, tty)]
    && r.top == k.top[tty := slot] && r.curr == slot
  }

  /** Going to another open terminal and back gives back the whole state. */
  lemma SwitchAndBack(k: Kernel, tty: nat)
    requires Good(k) && Shaped(k) && tty < TTYS && k.top[tty] != UNOPENED
    ensures SwitchTty(SwitchTty(k, tty, true), k.active, true) == k
  {
    var depth :| Inv(k, depth);
    assert TopOk(k, depth, k.active);
  }

  /** A root that halts is replaced: its terminal has one live process, a self-parent shell on top. */
  lemma RootIsReplaced(k: Kernel)
    requires Good(k) && Shaped(k) && k.pcbs[k.running].parent == k.running
    ensures var r := Step(k, HaltEvent);
            && r.active == k.active && r.pcbs[r.running] == Pcb(r.running, k.active)
            && forall p :: 0 <= p < SLOTS ==> (r.live[p] && r.pcbs[p].tty == k.active <==> p == r.running)
  {
    var depth :| Inv(k, depth);
    RunningIsLive(k, depth);
    RootIsAlone(k, depth);
    var f := k.(live := k.live[k.running := false], nextIsRoot := true);
    assert !f.live[k.running];
    assert LowestFree(f.live, 0) < SLOTS;
  }

  // ---------------------------------------------------------------- nesting

  /** A balanced run on one terminal: start a child, let it run, halt it, go on. */
  datatype Nest = Quiet | Child(inner: Nest, after: Nest)

  /** How many slots the nest needs at once. */
  ghost function Height(n: Nest): nat {
    match n
    case Quiet => 0
    case Child(inner, after) => var h := 1 + Height(inner); if h > Height(after) then h else Height(after)
  }

  ghost function FreeFrom(live: seq<bool>, i: nat): nat
    requires |live| == SLOTS && i <= SLOTS
    decreases SLOTS - i
  {
    if i == SLOTS then 0 else (if live[i] then 0 else 1) + FreeFrom(live, i + 1)
  }

  /** Equal in everything the kernel works with; blocks of free slots do not matter. */
  ghost predicate Same(a: Kernel, b: Kernel) {
    && Shaped(a) && Shaped(b)
    && a.live == b.live && a.top == b.top && a.active == b.active && a.nextIsRoot == b.nextIsRoot
    && a.running == b.running && a.page == b.page && a.esp0 == b.esp0
    && forall p :: 0 <= p < SLOTS && a.live[p] ==> a.pcbs[p] == b.pcbs[p]
  }

  lemma {:induction false} FreeAfterTaking(live: seq<bool>, i: nat, slot: nat)
    requires |live| == SLOTS && i <= slot < SLOTS && !live[slot]
    ensures FreeFrom(live, i) == FreeFrom(live[slot := true], i) + 1
    decreases SLOTS - i
  {
    if i < slot {
      FreeAfterTaking(live, i + 1, slot);
    } else {
      FreeUnchanged(live, slot + 1, slot);
    }
  }

  lemma {:induction false} FreeUnchanged(live: seq<bool>, i: nat, slot: nat)
    requires |live| == SLOTS && slot < i <= SLOTS
    ensures FreeFrom(live, i) == FreeFrom(live[slot := true], i)
    decreases SLOTS - i
  {
    if i < SLOTS {
      FreeUnchanged(live, i + 1, slot);
    }
  }

  lemma {:induction false} SomeFree(live: seq<bool>, i: nat)
    requires |live| == SLOTS && i <= SLOTS && FreeFrom(live, i) > 0
    ensures LowestFree(live, i) < SLOTS
    decreases SLOTS - i
  {
    if live[i] {
      SomeFree(live, i + 1);
    }
  }

  /** A successful execute: a child of the running process in a fresh slot. */
  ghost predicate Started(k: Kernel, k1: Kernel, slot: nat) {
    && Shaped(k) && Shaped(k1) && slot < SLOTS && !k.live[slot] && slot != k.running
    && k1 == Kernel(k.live[slot := true], k.pcbs[slot := Pcb(k.running, k.active)], k.top[k.active := slot], k.active,
                    false, slot, slot, slot, Esp0(slot))
  }

  lemma ChildStarts(k: Kernel)
    requires Good(k) && Shaped(k) && FreeFrom(k.live, 0) > 0
    ensures var k1 := Execute(k, true);
            Good(k1) && Shaped(k1) && Started(k, k1, LowestFree(k.live, 0)) &&
                FreeFrom(k1.live, 0) == FreeFrom(k.live, 0) - 1
  {
    var depth :| Inv(k, depth);
    RunningIsLive(k, depth);
    SomeFree(k.live, 0);
    ExecuteKeepsInv(k, depth, true);
    FreeAfterTaking(k.live, 0, LowestFree(k.live, 0));
  }

  /** Halting the child gives back the state before it was started. */
  lemma HaltUndoes(k: Kernel, k1: Kernel, slot: nat, k2: Kernel)
    requires Good(k) && Started(k, k1, slot) && Same(k1, k2) && Good(k2)
    ensures k2.pcbs[k2.running].parent < SLOTS && k2.pcbs[k2.running].tty < TTYS
    ensures var k3 := Halt(k2, true); Good(k3) && Same(k, k3) && k3.curr == k.running
  {
    hide Linked;
    hide Distinct;
    hide TopOk;
    var depth :| Inv(k, depth);
    RunningIsLive(k, depth);
    HaltExact(k2, true);
    var k3 := Halt(k2, true);
    assert k2.pcbs[slot] == Pcb(k.running, k.active);
    assert k3.live == k.live && k3.top == k.top;
  }

  /**
   Every balanced nesting of successful executes and halts restores the process table, the top
   processes, the running process, its page and its kernel stack. `curr_process` ends as the running
   process: it is restored exactly when it was that before, which a terminal switch does not ensure.
   */
  ghost function RunNest(k: Kernel, n: Nest): (r: Kernel)
    requires Good(k) && Shaped(k) && Height(n) <= FreeFrom(k.live, 0)
    ensures Good(r) && Same(k, r)
    ensures n != Quiet ==> (r.curr == k.curr <==> k.curr == k.running)
    decreases n
  {
    match n
    case Quiet => k
    case Child(inner, after) =>
      ChildStarts(k);
      var slot, k1 := LowestFree(k.live, 0), Execute(k, true);
      var k2 := RunNest(k1, inner);
      HaltUndoes(k, k1, slot, k2);
      RunNest(Halt(k2, true), after)
  }

  // ---------------------------------------------------------------- curr_process

  /** A switch leaves `curr_process` at the running process exactly for a new terminal or its own. */
  lemma SwitchLeavesCurrent(k: Kernel, tty: nat)
    requires Good(k) && Shaped(k) && Admissible(k, SwitchEvent(tty))
    ensures var r := SwitchTty(k, tty, true);
            r.curr == r.running <==> k.top[tty] == UNOPENED || k.top[tty] == k.curr
  {
    var depth :| Inv(k, depth);
    assert TopOk(k, depth, tty);
  }

  /** The terminal on which `curr_process` was last set, `w` before the event. */
  function LastSet(k: Kernel, e: Event, w: nat): nat
    requires Shaped(k) && Admissible(k, e)
  {
    match e
    case ExecuteEvent(valid) => if valid && LowestFree(k.live, 0) < SLOTS then k.active else w
    case HaltEvent => k.active
    case SwitchEvent(tty) => if k.top[tty] == UNOPENED then tty else w
  }

  /** `curr_process` is the top process of the open terminal `w`. */
  ghost predicate CurrentOn(k: Kernel, w: nat)
    requires Shaped(k)
  {
    w < TTYS && k.top[w] != UNOPENED && k.curr == k.top[w]
  }

  lemma StepKeepsCurrentOn(k: Kernel, e: Event, w: nat)
    requires Good(k) && Shaped(k) && Admissible(k, e) && CurrentOn(k, w)
    ensures CurrentOn(Step(k, e), LastSet(k, e, w))
  {
    hide Linked;
    hide Distinct;
    var depth :| Inv(k, depth);
    RunningIsLive(k, depth);
    if e.HaltEvent? {
      var p := k.running;
      assert !k.live[p := false][p];
    }
  }

  ghost function LastSetInRun(k: Kernel, es: seq<Event>, w: nat): nat
    requires Good(k) && Shaped(k) && AdmissibleRun(k, es)
    decreases |es|
  {
    if es == [] then w else LastSetInRun(Step(k, es[0]), es[1..], LastSet(k, es[0], w))
  }

  lemma {:induction false} RunKeepsCurrentOn(k: Kernel, es: seq<Event>, w: nat)
    requires Good(k) && Shaped(k) && AdmissibleRun(k, es) && CurrentOn(k, w)
    ensures CurrentOn(Run(k, es), LastSetInRun(k, es, w))
    decreases |es|
  {
    if es != [] {
      StepKeepsCurrentOn(k, es[0], w);
      RunKeepsCurrentOn(Step(k, es[0]), es[1..], LastSet(k, es[0], w));
    }
  }

  lemma TopsDiffer(k: Kernel, t: nat, u: nat)
    requires Good(k) && Shaped(k) && t < TTYS && u < TTYS && k.top[t] != UNOPENED && k.top[t] == k.top[u]
    ensures t == u
  {
    var depth :| Inv(k, depth);
    assert TopOk(k, depth, t) && TopOk(k, depth, u);
  }

  /**
   After boot and every admissible run `curr_process` is the top process of the terminal of the last
   event that executed or halted, so it is the running process exactly when that terminal is active.
   */
  lemma CurrentAfterEveryRun(es: seq<Event>)
    requires AdmissibleRun(AfterBoot(), es)
    ensures var k, w := Run(AfterBoot(), es), LastSetInRun(AfterBoot(), es, 0);
            CurrentOn(k, w) && (k.curr == k.running <==> w == k.active)
  {
    var k, w := Run(AfterBoot(), es), LastSetInRun(AfterBoot(), es, 0);
    RunKeepsCurrentOn(AfterBoot(), es, 0);
    EveryRunIsSound(es);
    if k.top[w] == k.top[k.active] {
      TopsDiffer(k, w, k.active);
    }
  }

  // ---------------------------------------------------------------- a full table

  function Starts(n: nat): seq<Event> {
    seq(n, _ => ExecuteEvent(true))
  }

  /** As many executes as there are free slots succeed, and other terminals keep their tops. */
  lemma {:induction false} Fill(k: Kernel, n: nat)
    requires Good(k) && Shaped(k) && n <= FreeFrom(k.live, 0)
    ensures AdmissibleRun(k, Starts(n))
    ensures var r := Run(k, Starts(n));
            && FreeFrom(r.live, 0) == FreeFrom(k.live, 0) - n
            && forall t :: 0 <= t < TTYS && t != k.active ==> r.top[t] == k.top[t]
    decreases n
  {
    hide Good;
    hide FreeFrom;
    hide LowestFree;
    if n > 0 {
      ChildStarts(k);
      assert Starts(n)[0] == ExecuteEvent(true) && Starts(n)[1..] == Starts(n - 1);
      Fill(Execute(k, true), n - 1);
    }
  }

  lemma {:induction false} NoneFree(live: seq<bool>, i: nat)
    requires |live| == SLOTS && i <= SLOTS && FreeFrom(live, i) == 0
    ensures LowestFree(live, i) == SLOTS
    decreases SLOTS - i
  {
    if i < SLOTS {
      NoneFree(live, i + 1);
    }
  }

  lemma FreeAfterBoot()
    ensures AfterBoot().live == [true, false, false, false, false, false] && FreeFrom(AfterBoot().live, 0) == 5
    ensures AfterBoot().active == 0 && AfterBoot().top == [0, UNOPENED, UNOPENED]
  {
    var live := AfterBoot().live;
    assert live[0] && forall p :: 1 <= p < SLOTS ==> !live[p];
    assert FreeFrom(live, 0) == FreeFrom(live, 1) == 5;
  }

  /** Five programs started from the first shell take all slots; entering a new terminal then breaks the state. */
  lemma FullTableBreaksSwitch()
    ensures AdmissibleRun(AfterBoot(), Starts(5))
    ensures Shaped(Run(AfterBoot(), Starts(5))) && !Good(SwitchTty(Run(AfterBoot(), Starts(5)), 1, true))
  {
    hide Good;
    hide FreeFrom;
    hide Run;
    hide AdmissibleRun;
    hide SwitchTty;
    var k := AfterBoot();
    FreeAfterBoot();
    Fill(k, 5);
    var r := Run(k, Starts(5));
    NoneFree(r.live, 0);
    SwitchExact(r, 1, true);
  }
}
