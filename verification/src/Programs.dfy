/** `execute` with the program it loads: process table, page tables and physical memory together. */
module Programs {
  import opened Bytes
  import opened FileSystem
  import opened Processes
  import opened ProcessCode
  import Paging
  import Loader

  /** Offset of the load address in the process's 4 MB page. */
  const LOAD_OFFSET := 0x4_8000

  /** The load address leads to the frame of the mapped process, byte by byte. */
  lemma LoadAddressIsInFrame(pid: nat, video: bool, i: nat)
    requires LOAD_OFFSET + i < Paging.FOUR_MEG
    ensures Paging.UserView(Paging.Space(true, pid, video), Loader.VIRTUAL_ADDR + i) ==
            Paging.Reaches(Paging.FrameOf(pid) + LOAD_OFFSET + i)
  {
    assert Loader.VIRTUAL_ADDR + i == Paging.USER_DIR * Paging.FOUR_MEG + (LOAD_OFFSET + i);
  }

  /** Physical byte `k` is in the frame of slot `pid`. */
  ghost predicate InFrame(pid: nat, k: nat) {
    Paging.FrameOf(pid) <= k < Paging.FrameOf(pid) + Paging.FOUR_MEG
  }

  /** The program reads its file at the load address, and no byte of another frame has changed. */
  ghost predicate InPlace(now: seq<byte>, before: seq<byte>, file: seq<byte>, pid: nat, video: bool) {
    && |now| == |before|
    && (forall i :: 0 <= i < |file| ==> ReadsAt(now, file, pid, video, i))
    && forall k :: 0 <= k < |now| && now[k] != before[k] && !InFrame(pid, k) ==> Paging.FOUR_MEG <= k < KERNEL_BOTTOM
  }

  ghost predicate ReadsAt(now: seq<byte>, file: seq<byte>, pid: nat, video: bool, i: nat)
    requires i < |file|
  {
    var a := Paging.UserView(Paging.Space(true, pid, video), Loader.VIRTUAL_ADDR + i);
    a.Reaches? && a.physical < |now| && now[a.physical] == file[i]
  }

  lemma LoadedIsInPlace(now: seq<byte>, before: seq<byte>, file: seq<byte>, pid: nat, video: bool, stack: nat)
    requires |before| >= Paging.FrameOf(SLOTS) && pid < SLOTS && LOAD_OFFSET + |file| <= Paging.FOUR_MEG
    requires Paging.FOUR_MEG <= stack && stack + Loader.CHUNK <= KERNEL_BOTTOM
    requires Loader.Loaded(now, before, file, |file|, Paging.FrameOf(pid) + LOAD_OFFSET, stack)
    ensures InPlace(now, before, file, pid, video)
  {
    var base := Paging.FrameOf(pid) + LOAD_OFFSET;
    forall i | 0 <= i < |file|
      ensures ReadsAt(now, file, pid, video, i)
    {
      LoadAddressIsInFrame(pid, video, i);
      assert now[base + i] == Loader.LoadedByte(before, file, |file|, base, base + i);
    }
    assert forall k :: 0 <= k < |now| && !(stack <= k < stack + Loader.CHUNK) ==>
        now[k] == Loader.LoadedByte(before, file, |file|, base, k);
  }

  /** In particular the memory of every other slot is as it was. */
  lemma OtherFramesUntouched(now: seq<byte>, before: seq<byte>, file: seq<byte>, pid: nat, video: bool, q: nat, k: nat)
    requires InPlace(now, before, file, pid, video) && q != pid && InFrame(q, k) && k < |now|
    ensures now[k] == before[k]
  {
  }

  /**
   `execute` on physical memory. When it succeeds, the new process, and only it, is mapped; through the
   tables its program is at the load address; and outside its own frame nothing has changed but kernel
   memory: no other process, live or not, sees a difference.
   */
  method ExecuteProgram(system: System, img: Image, inode: uint32, valid: bool, phys: array<byte>, stack: nat)
    returns (ok: bool)
    requires system.Valid() && phys.Length >= Paging.FrameOf(SLOTS)
    requires {phys as object} !! {system.processes as object, system.pcbs as object, system.topPid as object,
                                  system.mmu.pageDir as object, system.mmu.pageTable as object}
    requires Paging.FOUR_MEG <= stack && stack + Loader.CHUNK <= KERNEL_BOTTOM
    requires valid ==> inode <= NumInodes(img) && Readable(img, inode)
    requires valid ==> LOAD_OFFSET + FileLength(img, inode) <= Paging.FOUR_MEG
    modifies system, system.processes, system.pcbs, system.topPid, system.mmu, system.mmu.pageDir, phys
    ensures ok <==> valid && LowestFree(old(system.processes[..]), 0) < SLOTS
    ensures system.Valid() && system.State() == Processes.Execute(old(system.State()), valid)
    ensures !ok ==> phys[..] == old(phys[..]) && system.mmu.space == old(system.mmu.space)
    ensures ok ==>
              && system.mmu.space == Paging.Space(true, system.running, old(system.mmu.space.video))
              && InPlace(phys[..], old(phys[..]), Contents(img, inode), system.running, system.mmu.space.video)
  {
    hide Paging.Represents;
    hide Loader.Loaded;
    hide Contents;
    hide Readable;
    hide InPlace;
    var slot := system.FindFree();
    system.Execute(valid);
    ok := valid && slot < SLOTS;
    if ok {
      ghost var before := phys[..];
      Loader.LoadFile(img, inode, phys, Paging.FrameOf(slot) + LOAD_OFFSET, stack);
      LoadedIsInPlace(phys[..], before, Contents(img, inode), slot, system.mmu.space.video, stack);
    }
  }
}
