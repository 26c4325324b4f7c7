/**
 Processes, terminals and the running process: the slot table, parent links, the top process of each
 terminal, and what execute, halt and a terminal switch do to them.
 */
module Processes {
  import opened Config

  const SLOTS := 6
  const UNOPENED := 255
  const KERNEL_BOTTOM := 0x80_0000
  const EIGHT_KB := 0x2000

  /** The fields of a process control block that the scheduling code follows. */
  datatype Pcb = Pcb(parent: nat, tty: nat)

  /**
   `running` is the slot on whose kernel stack the processor executes (what get_pcb finds), `page` the
   slot mapped at 128 MB, `esp0` the stack the TSS names. `curr` is the global `curr_process`.
   */
  datatype Kernel = Kernel(
    live: seq<bool>, pcbs: seq<Pcb>, top: seq<nat>, active: nat, nextIsRoot: bool,
    curr: nat, running: nat, page: nat, esp0: int)

  ghost predicate Shaped(k: Kernel) {
    |k.live| == SLOTS && |k.pcbs| == SLOTS && |k.top| == TTYS && k.active < TTYS && k.running < SLOTS
  }

  function Esp0(pid: nat): int { KERNEL_BOTTOM - pid * EIGHT_KB - 4 }

  function PcbAddress(pid: nat): int { KERNEL_BOTTOM - (pid + 1) * EIGHT_KB }

  /** `get_pcb`: the stack pointer with its low 13 bits cleared. */
  function GetPcb(esp: int): int { esp - esp % EIGHT_KB }

  /** Anywhere on the kernel stack of a process, the mask finds that process's control block. */
  lemma MaskFindsOwner(pid: nat, esp: int)
    requires pid < SLOTS && PcbAddress(pid) <= esp <= Esp0(pid)
    ensures GetPcb(esp) == PcbAddress(pid)
  {
    var off := esp - PcbAddress(pid);
    assert esp == (0x400 - (pid + 1)) * EIGHT_KB + off && 0 <= off < EIGHT_KB;
  }

  /** Control block and kernel stack fill the process's 8 KB, the slots going down from 8 MB without a gap. */
  lemma StackFillsItsSlot(pid: nat)
    ensures Esp0(pid) + 4 == PcbAddress(pid) + 0x2000 == 0x80_0000 - 0x2000 * pid
    ensures PcbAddress(pid + 1) + 0x2000 == PcbAddress(pid)
  {
  }

  // ---------------------------------------------------------------- the operations

  function LowestFree(live: seq<bool>, i: nat): (r: nat)
    requires |live| == SLOTS && i <= SLOTS
    ensures i <= r <= SLOTS && (r < SLOTS ==> !live[r])
    ensures forall j :: i <= j < r ==> live[j]
    decreases SLOTS - i
  {
    if i == SLOTS || !live[i] then i else LowestFree(live, i + 1)
  }

  /** `execute` of a program that is (`valid`) or is not an executable file. */
  function Execute(k: Kernel, valid: bool): (r: Kernel)
    requires |k.live| == SLOTS && |k.pcbs| == SLOTS && |k.top| == TTYS && k.active < TTYS
    ensures |r.live| == SLOTS && |r.pcbs| == SLOTS && |r.top| == TTYS && r.active == k.active
  {
    var slot := LowestFree(k.live, 0);
    if slot == SLOTS || !valid then k else
      var parent := if slot == 0 || k.nextIsRoot then slot else k.running;
      Kernel(k.live[slot := true], k.pcbs[slot := Pcb(parent, k.active)], k.top[k.active := slot], k.active,
             false, slot, slot, slot, Esp0(slot))
  }

  /** The part of `halt` that returns to the parent. */
  function ReturnTo(k: Kernel, p: nat, parent: nat): (r: Kernel)
    requires |k.live| == SLOTS && |k.pcbs| == SLOTS && |k.top| == TTYS && p < SLOTS && parent < SLOTS
    requires k.pcbs[p].tty < TTYS
  {
    k.(live := k.live[p := false][parent := true], top := k.top[k.pcbs[p].tty := parent],
       curr := parent, running := parent, page := parent, esp0 := Esp0(parent))
  }

  /** `halt` of the running process; a root is replaced by a new shell. */
  function Halt(k: Kernel, shell: bool): (r: Kernel)
    requires |k.live| == SLOTS && |k.pcbs| == SLOTS && |k.top| == TTYS && k.active < TTYS && k.running < SLOTS
    requires k.pcbs[k.running].parent < SLOTS && k.pcbs[k.running].tty < TTYS
  {
    var p := k.running;
    var parent := k.pcbs[p].parent;
    if parent == p then
      var freed := k.(live := k.live[p := false], nextIsRoot := true);
      if shell then Execute(freed, true) else ReturnTo(freed, p, parent)
    else ReturnTo(k, p, parent)
  }

  /** `switch_to_tty`: an unopened terminal gets a root shell, an open one its top process. */
  function SwitchTty(k: Kernel, tty: nat, shell: bool): (r: Kernel)
    requires |k.live| == SLOTS && |k.pcbs| == SLOTS && |k.top| == TTYS && tty < TTYS
    ensures r.active == tty
  {
    var k1 := k.(active := tty);
    if k.top[tty] == UNOPENED then Execute(k1.(nextIsRoot := true), shell)
    else k1.(running := k.top[tty], page := k.top[tty], esp0 := Esp0(k.top[tty]))
  }

  /** The state after boot has executed the first shell. */
  function Boot(): Kernel {
    Execute(Kernel(seq(SLOTS, _ => false), seq(SLOTS, _ => Pcb(0, 0)), [UNOPENED, UNOPENED, UNOPENED], 0, true, 0, 0, 0,
                   KERNEL_BOTTOM), true)
  }

  // ---------------------------------------------------------------- invariant

  /** A live process: its parent is live on the same terminal, one level up, or itself at level 0. */
  ghost predicate Linked(k: Kernel, depth: seq<nat>, p: nat)
    requires Shaped(k) && |depth| == SLOTS && p < SLOTS
  {
    var b := k.pcbs[p];
    && b.tty < TTYS && b.parent < SLOTS && k.live[b.parent] && k.pcbs[b.parent].tty == b.tty
    && k.top[b.tty] != UNOPENED
    && (if depth[p] == 0 then b.parent == p else depth[b.parent] == depth[p] - 1)
  }

  /** The top process of an open terminal is live there and no process of the terminal is deeper. */
  ghost predicate TopOk(k: Kernel, depth: seq<nat>, t: nat)
    requires Shaped(k) && |depth| == SLOTS && t < TTYS
  {
    k.top[t] != UNOPENED ==>
      && k.top[t] < SLOTS && k.live[k.top[t]] && k.pcbs[k.top[t]].tty == t
      && forall q :: 0 <= q < SLOTS && k.live[q] && k.pcbs[q].tty == t ==> depth[q] <= depth[k.top[t]]
  }

  /** No two live processes of a terminal are on the same level. */
  ghost predicate Distinct(k: Kernel, depth: seq<nat>, p: nat, q: nat)
    requires Shaped(k) && |depth| == SLOTS && p < SLOTS && q < SLOTS
  {
    k.live[p] && k.live[q] && k.pcbs[p].tty == k.pcbs[q].tty && depth[p] == depth[q] ==> p == q
  }

  ghost predicate Inv(k: Kernel, depth: seq<nat>) {
    && Shaped(k) && |depth| == SLOTS
    && (forall p :: 0 <= p < SLOTS && k.live[p] ==> Linked(k, depth, p))
    && (forall p, q :: 0 <= p < SLOTS && 0 <= q < SLOTS ==> Distinct(k, depth, p, q))
    && (forall t :: 0 <= t < TTYS ==> TopOk(k, depth, t))
    && k.live[0] && k.pcbs[0] == Pcb(0, 0)
    && k.top[k.active] == k.running && k.page == k.running && k.esp0 == Esp0(k.running) && !k.nextIsRoot
  }

  lemma BootInv()
    ensures Inv(Boot(), seq(SLOTS, _ => 0))
  {
  }

  lemma RunningIsLive(k: Kernel, depth: seq<nat>)
    requires Inv(k, depth)
    ensures k.running < SLOTS && k.live[k.running] && k.pcbs[k.running].tty == k.active && Linked(k, depth, k.running)
  {
    assert TopOk(k, depth, k.active);
  }

  /** `slot` becomes the child of the running process, on top of its terminal. */
  lemma ChildKeepsInv(k: Kernel, depth: seq<nat>, slot: nat)
    requires Inv(k, depth) && slot < SLOTS && !k.live[slot] && slot == LowestFree(k.live, 0)
    ensures Inv(Execute(k, true), depth[slot := depth[k.running] + 1])
  {
    RunningIsLive(k, depth);
    var r, d := Execute(k, true), depth[slot := depth[k.running] + 1];
    forall p | 0 <= p < SLOTS && r.live[p]
      ensures Linked(r, d, p)
    {
      if p != slot {
        assert Linked(k, depth, p);
      }
    }
    forall p, q | 0 <= p < SLOTS && 0 <= q < SLOTS
      ensures Distinct(r, d, p, q)
    {
      assert Distinct(k, depth, p, q) && TopOk(k, depth, k.active);
    }
    forall t | 0 <= t < TTYS
      ensures TopOk(r, d, t)
    {
      assert TopOk(k, depth, t);
    }
  }

  /** Only slot 0 is tested for being a root; it is live, so a child never gets it. */
  lemma ExecuteKeepsInv(k: Kernel, depth: seq<nat>, valid: bool)
    requires Inv(k, depth)
    ensures var slot := LowestFree(k.live, 0);
            var r := Execute(k, valid);
            if slot < SLOTS && valid
            then && slot != 0 && !k.live[slot] && r.live[slot] && r.pcbs[slot].parent == k.running
                 && Inv(r, depth[slot := depth[k.running] + 1])
            else r == k
  {
    var slot := LowestFree(k.live, 0);
    if slot < SLOTS && valid {
      ChildKeepsInv(k, depth, slot);
    }
  }

  /** Everything is in order except that the active terminal has no process. */
  ghost predicate Vacant(k: Kernel, depth: seq<nat>) {
    && Shaped(k) && |depth| == SLOTS && k.nextIsRoot
    && (forall p :: 0 <= p < SLOTS && k.live[p] ==> Linked(k, depth, p) && k.pcbs[p].tty != k.active)
    && (forall p, q :: 0 <= p < SLOTS && 0 <= q < SLOTS ==> Distinct(k, depth, p, q))
    && (forall t :: 0 <= t < TTYS && t != k.active ==> TopOk(k, depth, t))
    && (if k.active == 0 then !k.live[0] else k.live[0] && k.pcbs[0] == Pcb(0, 0))
  }

  /** A shell started on a vacant terminal becomes its root. */
  lemma RootKeepsInv(k: Kernel, depth: seq<nat>)
    requires Vacant(k, depth) && LowestFree(k.live, 0) < SLOTS
    ensures Inv(Execute(k, true), depth[LowestFree(k.live, 0) := 0])
  {
    var slot := LowestFree(k.live, 0);
    var r, d := Execute(k, true), depth[slot := 0];
    forall p | 0 <= p < SLOTS && r.live[p]
      ensures Linked(r, d, p)
    {
      if p != slot {
        assert Linked(k, depth, p);
      }
    }
    forall p, q | 0 <= p < SLOTS && 0 <= q < SLOTS
      ensures Distinct(r, d, p, q)
    {
      assert Distinct(k, depth, p, q);
    }
    forall t | 0 <= t < TTYS
      ensures TopOk(r, d, t)
    {
      RootTop(k, depth, slot, t);
    }
  }

  lemma RootTop(k: Kernel, depth: seq<nat>, slot: nat, t: nat)
    requires Vacant(k, depth) && slot == LowestFree(k.live, 0) < SLOTS && t < TTYS
    ensures Shaped(Execute(k, true)) && TopOk(Execute(k, true), depth[slot := 0], t)
  {
    hide Linked;
    hide Distinct;
    var r, d := Execute(k, true), depth[slot := 0];
    if t != k.active {
      assert TopOk(k, depth, t);
    } else {
      forall q | 0 <= q < SLOTS && r.live[q] && r.pcbs[q].tty == t
        ensures d[q] == 0
      {
      }
    }
  }

  /** Halting a child uncovers its parent. */
  lemma ChildHaltKeepsInv(k: Kernel, depth: seq<nat>, shell: bool)
    requires Inv(k, depth) && k.pcbs[k.running].parent != k.running
    ensures k.pcbs[k.running].tty < TTYS && k.pcbs[k.running].parent < SLOTS
    ensures Inv(Halt(k, shell), depth)
  {
    RunningIsLive(k, depth);
    var r := Halt(k, shell);
    assert Linked(k, depth, 0);
    forall q | 0 <= q < SLOTS && r.live[q]
      ensures Linked(r, depth, q)
    {
      NotAChild(k, depth, q);
    }
    forall q, q' | 0 <= q < SLOTS && 0 <= q' < SLOTS
      ensures Distinct(r, depth, q, q')
    {
      assert Distinct(k, depth, q, q');
    }
    forall t | 0 <= t < TTYS
      ensures TopOk(r, depth, t)
    {
      UncoveredTop(k, depth, t);
    }
  }

  /** Nothing hangs below the running process. */
  lemma NotAChild(k: Kernel, depth: seq<nat>, q: nat)
    requires Inv(k, depth) && q < SLOTS && k.live[q]
    ensures Linked(k, depth, q) && (q != k.running ==> k.pcbs[q].parent != k.running)
  {
    RunningIsLive(k, depth);
    assert Linked(k, depth, q) && TopOk(k, depth, k.active);
  }

  lemma UncoveredTop(k: Kernel, depth: seq<nat>, t: nat)
    requires Inv(k, depth) && k.pcbs[k.running].parent != k.running && t < TTYS
    requires k.pcbs[k.running].tty < TTYS && k.pcbs[k.running].parent < SLOTS
    ensures TopOk(ReturnTo(k, k.running, k.pcbs[k.running].parent), depth, t)
  {
    RunningIsLive(k, depth);
    var p := k.running;
    var parent := k.pcbs[p].parent;
    assert TopOk(k, depth, t);
    if t == k.active {
      forall q | 0 <= q < SLOTS && k.live[q] && q != p && k.pcbs[q].tty == t
        ensures depth[q] <= depth[parent]
      {
        assert Distinct(k, depth, q, p);
      }
    }
  }

  lemma RootIsAlone(k: Kernel, depth: seq<nat>)
    requires Inv(k, depth) && k.pcbs[k.running].parent == k.running
    ensures Vacant(k.(live := k.live[k.running := false], nextIsRoot := true), depth)
  {
    RunningIsLive(k, depth);
    var p := k.running;
    var f := k.(live := k.live[p := false], nextIsRoot := true);
    assert TopOk(k, depth, k.active);
    forall q | 0 <= q < SLOTS && f.live[q]
      ensures Linked(f, depth, q) && f.pcbs[q].tty != f.active
    {
      assert Linked(k, depth, q) && Distinct(k, depth, q, p);
    }
    forall q, q' | 0 <= q < SLOTS && 0 <= q' < SLOTS
      ensures Distinct(f, depth, q, q')
    {
      assert Distinct(k, depth, q, q');
    }
    forall t | 0 <= t < TTYS && t != f.active
      ensures TopOk(f, depth, t)
    {
      assert TopOk(k, depth, t);
    }
    assert Distinct(k, depth, 0, p);
  }

  // ---------------------------------------------------------------- exact conditions and runs

  ghost predicate Good(k: Kernel) {
    exists depth :: Inv(k, depth)
  }

  lemma HaltCallable(k: Kernel)
    requires Good(k)
    ensures Shaped(k) && k.pcbs[k.running].parent < SLOTS && k.pcbs[k.running].tty < TTYS
  {
    var depth :| Inv(k, depth);
    RunningIsLive(k, depth);
  }

  lemma RootHaltKeepsInv(k: Kernel, depth: seq<nat>)
    requires Inv(k, depth) && k.pcbs[k.running].parent == k.running && k.pcbs[k.running].tty < TTYS
    ensures Good(Halt(k, true))
  {
    RunningIsLive(k, depth);
    RootIsAlone(k, depth);
    var f := k.(live := k.live[k.running := false], nextIsRoot := true);
    assert !f.live[k.running];
    RootKeepsInv(f, depth);
  }

  /** Halting goes wrong exactly when a root halts and no shell can be executed. */
  lemma HaltExact(k: Kernel, shell: bool)
    requires Good(k)
    ensures Shaped(k) && k.pcbs[k.running].parent < SLOTS && k.pcbs[k.running].tty < TTYS
    ensures Good(Halt(k, shell)) <==> shell || k.pcbs[k.running].parent != k.running
  {
    var depth :| Inv(k, depth);
    HaltCallable(k);
    if k.pcbs[k.running].parent != k.running {
      ChildHaltKeepsInv(k, depth, shell);
    } else if shell {
      RootHaltKeepsInv(k, depth);
    } else {
      assert Halt(k, shell).nextIsRoot;
    }
  }

  /** Switching goes wrong exactly when the terminal is unopened and no root shell can be started. */
  lemma SwitchExact(k: Kernel, tty: nat, shell: bool)
    requires Good(k) && tty < TTYS
    ensures Shaped(k)
    ensures Good(SwitchTty(k, tty, shell)) <==> k.top[tty] != UNOPENED || (shell && LowestFree(k.live, 0) < SLOTS)
  {
    var depth :| Inv(k, depth);
    if k.top[tty] != UNOPENED {
      assert TopOk(k, depth, tty);
      OpenSwitchKeepsInv(k, depth, tty, shell);
    } else if shell && LowestFree(k.live, 0) < SLOTS {
      UnopenedIsVacant(k, depth, tty);
      RootKeepsInv(k.(active := tty, nextIsRoot := true), depth);
    } else {
      assert SwitchTty(k, tty, shell).top[tty] == UNOPENED;
    }
  }

  lemma OpenSwitchKeepsInv(k: Kernel, depth: seq<nat>, tty: nat, shell: bool)
    requires Inv(k, depth) && tty < TTYS && k.top[tty] != UNOPENED
    ensures Inv(SwitchTty(k, tty, shell), depth)
  {
    var r := SwitchTty(k, tty, shell);
    assert TopOk(k, depth, tty);
    forall p | 0 <= p < SLOTS && r.live[p] ensures Linked(r, depth, p) { assert Linked(k, depth, p); }
    forall p, q | 0 <= p < SLOTS && 0 <= q < SLOTS ensures Distinct(r, depth, p, q) { assert Distinct(k, depth, p, q); }
    forall t | 0 <= t < TTYS ensures TopOk(r, depth, t) { assert TopOk(k, depth, t); }
  }

  lemma UnopenedIsVacant(k: Kernel, depth: seq<nat>, tty: nat)
    requires Inv(k, depth) && tty < TTYS && k.top[tty] == UNOPENED
    ensures Vacant(k.(active := tty, nextIsRoot := true), depth)
  {
    var f := k.(active := tty, nextIsRoot := true);
    assert Linked(k, depth, 0);
    forall p | 0 <= p < SLOTS && f.live[p] ensures Linked(f, depth, p) &&
        f.pcbs[p].tty != tty { assert Linked(k, depth, p); }
    forall p, q | 0 <= p < SLOTS && 0 <= q < SLOTS ensures Distinct(f, depth, p, q) { assert Distinct(k, depth, p, q); }
    forall t | 0 <= t < TTYS && t != tty ensures TopOk(f, depth, t) { assert TopOk(k, depth, t); }
  }

  datatype Event = ExecuteEvent(valid: bool) | HaltEvent | SwitchEvent(tty: nat)

  /** With a usable shell, the one thing that must not happen: entering a new terminal with all slots taken. */
  ghost predicate Admissible(k: Kernel, e: Event)
    requires Shaped(k)
  {
    e.SwitchEvent? ==> e.tty < TTYS && (k.top[e.tty] != UNOPENED || LowestFree(k.live, 0) < SLOTS)
  }

  ghost function Step(k: Kernel, e: Event): (r: Kernel)
    requires Good(k) && Shaped(k) && Admissible(k, e)
    ensures Good(r) && Shaped(r)
  {
    match e
    case ExecuteEvent(valid) =>
      var depth :| Inv(k, depth);
      ExecuteKeepsInv(k, depth, valid);
      Execute(k, valid)
    case HaltEvent => HaltExact(k, true); Halt(k, true)
    case SwitchEvent(tty) => SwitchExact(k, tty, true); SwitchTty(k, tty, true)
  }
}
