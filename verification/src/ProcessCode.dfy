/** The kernel code behind module Processes: the globals it keeps and the page tables, changed in place. */
module ProcessCode {
  import opened Config

  import opened Processes
  import Paging

  class System {
    const processes: array<bool>
    const pcbs: array<Pcb>
    const topPid: array<nat>
    const mmu: Paging.Mmu
    var activeTty: nat
    var nextOneIsRootShell: bool
    var currProcess: nat
    /** Slot whose kernel stack is in use. */
    var running: nat
    /** Slot mapped at 128 MB, and the TSS stack. */
    var page: nat
    var esp0: int

    ghost function State(): Kernel
      reads this, processes, pcbs, topPid
    {
      Kernel(processes[..], pcbs[..], topPid[..], activeTty, nextOneIsRootShell, currProcess, running, page, esp0)
    }

    ghost predicate Sized()
      reads this
    {
      processes.Length == SLOTS && pcbs.Length == SLOTS && topPid.Length == TTYS && activeTty < TTYS
    }

    /** The page tables are well formed, and once a process is mapped it is the one in `page`. */
    ghost predicate Valid()
      reads this, mmu, mmu.pageDir, mmu.pageTable
    {
      && Sized() && mmu.Valid() && (mmu.space.mapped ==> mmu.space.pid == page)
      && {processes as object, pcbs as object, topPid as object} !! {mmu.pageDir as object, mmu.pageTable as object}
    }

    /** `entry`, from the clearing of the process table to the first shell. */
    constructor (table: bv32)
      requires table & 0xFFF == 0
      ensures Valid() && fresh(processes) && fresh(pcbs) && fresh(topPid)
      ensures fresh(mmu) && fresh(mmu.pageDir) && fresh(mmu.pageTable)
      ensures State() == Boot() && mmu.space == Paging.Space(true, page, false)
    {
      hide Paging.Represents;
      processes := new bool[6](_ => true);
      pcbs := new Pcb[6](_ => Pcb(0, 0));
      topPid := new nat[3](_ => UNOPENED);
      mmu := new Paging.Mmu(table);
      activeTty, nextOneIsRootShell, currProcess, running, page, esp0 := 0, true, 0, 0, 0, KERNEL_BOTTOM;
      new;
      hide Processes.Execute;
      hide LowestFree;
      ClearProcesses();
      assert !processes[..][0];
      Execute(true);
    }

    method ClearProcesses()
      requires Sized()
      modifies processes
      ensures processes[..] == seq(SLOTS, _ => false)
    {
      for i := 0 to SLOTS
        invariant forall k :: 0 <= k < i ==> !processes[k]
      {
        processes[i] := false;
      }
    }

    /** First free slot, or 6. */
    method FindFree() returns (i: nat)
      requires Sized()
      ensures i == LowestFree(processes[..], 0)
    {
      i := 0;
      while i < SLOTS
        invariant i <= SLOTS && LowestFree(processes[..], 0) == LowestFree(processes[..], i)
      {
        if !processes[i] {
          break;
        }
        i := i + 1;
      }
    }

    method CreatePage(pid: nat)
      requires Valid() && pid < SLOTS
      modifies this`page, mmu, mmu.pageDir
      ensures Valid() && page == pid && mmu.space == Paging.Space(true, page, old(mmu.space.video))
    {
      hide Paging.Represents;
      page := pid;
      mmu.CreatePage(pid);
    }

    method Execute(valid: bool)
      requires Valid()
      modifies this, processes, pcbs, topPid, mmu, mmu.pageDir
      ensures Valid() && State() == Processes.Execute(old(State()), valid)
      ensures mmu.space == if valid && LowestFree(old(processes[..]), 0) < SLOTS
                           then Paging.Space(true, page, old(mmu.space.video)) else old(mmu.space)
    {
      hide Paging.Represents;
      var slot := FindFree();
      if slot == SLOTS {
        return;
      }
      if !valid {
        return;
      }
      Start(slot);
    }

    /** The rest of `execute`, from the slot on. */
    method Start(slot: nat)
      requires Valid() && slot < SLOTS
      modifies this, processes, pcbs, topPid, mmu, mmu.pageDir
      ensures Valid() && mmu.space == Paging.Space(true, page, old(mmu.space.video))
      ensures var k := old(State());
              var parent := if slot == 0 || k.nextIsRoot then slot else k.running;
              State() == Kernel(k.live[slot := true], k.pcbs[slot := Pcb(parent, k.active)], k.top[k.active := slot],
                                k.active, false, slot, slot, slot, Esp0(slot))
    {
      hide Paging.Represents;
      processes[slot] := true;
      currProcess := slot;
      CreatePage(currProcess);
      var parent := running;
      topPid[activeTty] := currProcess;
      if currProcess == 0 || nextOneIsRootShell {
        parent := currProcess;
        nextOneIsRootShell := false;
      }
      pcbs[currProcess] := Pcb(parent, activeTty);
      esp0 := KERNEL_BOTTOM - currProcess * EIGHT_KB - 4;
      running := currProcess;
    }

    method Halt(shell: bool)
      requires Valid() && running < SLOTS && pcbs[running].parent < SLOTS && pcbs[running].tty < TTYS
      modifies this, processes, pcbs, topPid, mmu, mmu.pageDir
      ensures Valid() && State() == Processes.Halt(old(State()), shell)
      ensures mmu.space == Paging.Space(true, page, old(mmu.space.video))
    {
      hide Paging.Represents;
      var p := running;
      var parent := pcbs[p].parent;
      if parent == p {
        processes[p] := false;
        nextOneIsRootShell := true;
        ghost var freed := State();
        assert !processes[..][p];
        Execute(shell);
        if shell {
          return;
        }
        assert State() == freed;
      }
      BackTo(p, parent);
    }

    /** The rest of `halt`: the parent takes over. */
    method BackTo(p: nat, parent: nat)
      requires Valid() && p < SLOTS && parent < SLOTS && pcbs[p].tty < TTYS
      modifies this, processes, topPid, mmu, mmu.pageDir
      ensures Valid() && State() == ReturnTo(old(State()), p, parent)
      ensures mmu.space == Paging.Space(true, page, old(mmu.space.video))
    {
      hide Paging.Represents;
      processes[p] := false;
      processes[parent] := true;
      topPid[pcbs[p].tty] := parent;
      currProcess := parent;
      esp0 := KERNEL_BOTTOM - currProcess * EIGHT_KB - 4;
      CreatePage(parent);
      running := parent;
    }

    method SwitchToTty(tty: nat, shell: bool)
      requires Valid() && tty < TTYS && (topPid[tty] == UNOPENED || topPid[tty] < SLOTS)
      modifies this, processes, pcbs, topPid, mmu, mmu.pageDir
      ensures Valid() && State() == SwitchTty(old(State()), tty, shell)
      ensures old(mmu.space.mapped) ==> mmu.space == Paging.Space(true, page, old(mmu.space.video))
    {
      hide Paging.Represents;
      activeTty := tty;
      if topPid[activeTty] == UNOPENED {
        nextOneIsRootShell := true;
        Execute(shell);
      } else {
        var next := topPid[tty];
        CreatePage(next);
        esp0 := KERNEL_BOTTOM - next * EIGHT_KB - 4;
        running := next;
      }
    }

    /** A user access in a sound state goes through the tables to the running process or the video page. */
    method Access(address: nat) returns (r: Paging.Access)
      requires Valid() && Good(State()) && mmu.space.mapped && address < 0x1_0000_0000
      ensures r == Paging.UserView(Paging.Space(true, running, mmu.space.video), address)
      ensures r.Reaches? ==>
                var own := Paging.FrameOf(running);
                own <= r.physical < own + Paging.FOUR_MEG || (mmu.space.video && 0xB8000 <= r.physical < 0xB9000)
    {
      hide Paging.Represents;
      r := mmu.Translate(address);
    }
  }
}
