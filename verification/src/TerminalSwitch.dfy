/** `switch_to_tty` as a whole: the screen half and the process half in one step. */
module TerminalSwitch {
  import opened Config
  import Screen
  import Processes
  import VideoConsole
  import ProcessCode
  import Paging

  class Terminals {
    const display: VideoConsole.Display
    const system: ProcessCode.System

    ghost predicate Apart()
    {
      && {display as object, display.video as object, display.screenBuf as object, display.screenLoc as object} !!
         {system as object, system.processes as object, system.pcbs as object, system.topPid as object,
          system.mmu as object, system.mmu.pageDir as object, system.mmu.pageTable as object}
    }

    /** Both halves are in order and agree on the active terminal. */
    ghost predicate Valid()
      reads this, display, display.video, display.screenBuf, display.screenLoc
      reads system, system.mmu, system.mmu.pageDir, system.mmu.pageTable
    {
      Apart() && display.Valid() && system.Valid() && display.activeTty == system.activeTty
    }

    constructor (table: bv32)
      requires table & 0xFFF == 0
      ensures Valid() && system.State() == Processes.Boot() && display.activeTty == 0
    {
      display := new VideoConsole.Display();
      system := new ProcessCode.System(table);
      new;
      hide Paging.Represents;
      hide Screen.TtysBounded;
    }

    /**
     Processes and screens make their steps and agree on the active terminal again. A terminal entered for
     the first time is cleared, an open one shows what it showed; the process invariant survives exactly
     under the condition of `SwitchExact`.
     */
    method SwitchToTty(tty: nat, shell: bool)
      requires Valid() && tty < TTYS
      requires system.topPid[tty] == Processes.UNOPENED || system.topPid[tty] < Processes.SLOTS
      modifies display, display.video, display.screenBuf, display.screenLoc
      modifies system, system.processes, system.pcbs, system.topPid, system.mmu, system.mmu.pageDir
      ensures Valid() && display.activeTty == system.activeTty == tty
      ensures system.State() == Processes.SwitchTty(old(system.State()), tty, shell)
      ensures forall t :: 0 <= t < TTYS ==>
                display.View().consoles[t] == if t == tty && old(system.topPid[tty]) == Processes.UNOPENED
                                              then Screen.Cleared() else old(display.View()).consoles[t]
      ensures old(Processes.Good(system.State())) ==>
                (Processes.Good(system.State()) <==>
                 old(system.topPid[tty]) != Processes.UNOPENED ||
                 (shell && Processes.LowestFree(old(system.processes[..]), 0) < Processes.SLOTS))
    {
      hide Processes.SwitchTty;
      hide Processes.Good;
      hide Screen.TtysBounded;
      hide Screen.TtyStep;
      hide Paging.Represents;
      hide VideoConsole.Display.View;
      ghost var k := system.State();
      if Processes.Good(k) {
        Processes.SwitchExact(k, tty, shell);
      }
      Show(tty, system.topPid[tty] == Processes.UNOPENED);
      system.SwitchToTty(tty, shell);
    }

    /** The screen half: a terminal entered for the first time is cleared. */
    method Show(tty: nat, unopened: bool)
      requires Apart() && display.Valid() && tty < TTYS
      modifies display, display.video, display.screenBuf, display.screenLoc
      ensures display.Valid() && display.activeTty == tty
      ensures forall t :: 0 <= t < TTYS ==>
                display.View().consoles[t] ==
                if t == tty && unopened then Screen.Cleared() else old(display.View()).consoles[t]
    {
      display.SwitchTo(tty);
      if unopened {
        display.Clear();
      }
    }
  }
}
