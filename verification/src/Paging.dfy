/**
 Page directory and page table, and what a user-mode access reaches through them. The walk follows
 section 4.3 (32-bit paging) of the Intel SDM, volume 3A, with 4 MB pages enabled.
 */
module Paging {

  const TABLE_SIZE := 1024
  const PRESENT: bv32 := 0x1
  const ENABLE_KERNEL: bv32 := 0x80
  const ENABLE_USER: bv32 := 0x7
  const VIDEO: bv32 := 0xB8000
  const KERNEL: bv32 := 0x40_0000
  const FOUR_MEG := 0x40_0000
  const KERNEL_BOTTOM := 0x80_0000
  const USER_DIR := 32
  const VIDMAP_ENTRY := 33
  const VIDEO_ENTRY := 0xB8
  const MAX_PROCESSES := 6

  datatype Access = Fault | Reaches(physical: nat)

  predicate UserPresent(entry: bv32) { entry & 0x1 != 0 && entry & 0x4 != 0 }
  predicate LargePage(entry: bv32) { entry & 0x80 != 0 }
  function LargeFrame(entry: bv32): bv32 { entry & 0xFFC0_0000 }
  function SmallFrame(entry: bv32): bv32 { entry & 0xFFFF_F000 }

  /** The user-mode walk for a 32-bit address; the only page table in memory is the one at `table`. */
  function Walk(dir: seq<bv32>, tab: seq<bv32>, table: bv32, address: nat): Access
    requires |dir| == TABLE_SIZE && |tab| == TABLE_SIZE && address < 0x1_0000_0000
  {
    var pde := dir[address / FOUR_MEG];
    if !UserPresent(pde) then Fault
    else if LargePage(pde) then Reaches(LargeFrame(pde) as nat + address % FOUR_MEG)
    else if SmallFrame(pde) != table then Fault
    else
      var pte := tab[address / 0x1000 % TABLE_SIZE];
      if !UserPresent(pte) then Fault else Reaches(SmallFrame(pte) as nat + address % 0x1000)
  }

  // ---------------------------------------------------------------- what is meant

  /** The process whose memory is mapped, if any, and whether video memory has been handed out. */
  datatype Space = Space(mapped: bool, pid: nat, video: bool)

  function FrameOf(pid: nat): nat { KERNEL_BOTTOM + pid * FOUR_MEG }

  /** What a user program can reach: its own 4 MB at 128 MB, and the video page through entry 33. */
  function UserView(s: Space, address: nat): Access {
    var d, t := address / FOUR_MEG, address / 0x1000 % TABLE_SIZE;
    if d == USER_DIR && s.mapped then Reaches(FrameOf(s.pid) + address % FOUR_MEG)
    else if s.video && t == VIDMAP_ENTRY && (d == 0 || (d == 31 && s.mapped)) then Reaches(0xB8000 + address % 0x1000)
    else Fault
  }

  // ---------------------------------------------------------------- entries

  /** A slot number as the 32-bit argument of `create_page`. */
  function Bits(pid: nat): bv32 {
    if pid == 0 then 0 else if pid == 1 then 1 else if pid == 2 then 2
    else if pid == 3 then 3 else if pid == 4 then 4 else 5
  }

  function Location(pid: bv32): bv32 { 0x80_0000 + pid * 0x40_0000 }

  function UserEntry(pid: nat): bv32 {
    Location(Bits(pid)) | ENABLE_KERNEL | ENABLE_USER | PRESENT
  }

  lemma UserEntryIs(pid: nat)
    requires pid < MAX_PROCESSES
    ensures UserPresent(UserEntry(pid)) && LargePage(UserEntry(pid)) &&
        LargeFrame(UserEntry(pid)) as nat == FrameOf(pid) == 0x80_0000 + pid * 0x40_0000
  {
    if pid == 0 { assert LargeFrame(UserEntry(0)) == 0x0080_0000; }
    else if pid == 1 { assert LargeFrame(UserEntry(1)) == 0x00C0_0000; }
    else if pid == 2 { assert LargeFrame(UserEntry(2)) == 0x0100_0000; }
    else if pid == 3 { assert LargeFrame(UserEntry(3)) == 0x0140_0000; }
    else if pid == 4 { assert LargeFrame(UserEntry(4)) == 0x0180_0000; }
    else { assert LargeFrame(UserEntry(5)) == 0x01C0_0000; }
  }

  lemma TableEntries(table: bv32)
    requires table & 0xFFF == 0
    ensures !UserPresent(table | PRESENT)
    ensures var e := table | ENABLE_USER | PRESENT; UserPresent(e) && !LargePage(e) && SmallFrame(e) == table
    ensures table | PRESENT | ENABLE_USER == table | ENABLE_USER | PRESENT
  {
  }

  lemma FixedEntries()
    ensures !UserPresent(0) && !UserPresent(KERNEL | ENABLE_KERNEL | PRESENT) && !UserPresent(VIDEO | PRESENT)
    ensures UserPresent(VIDEO | ENABLE_USER | PRESENT)
    ensures SmallFrame(VIDEO | ENABLE_USER | PRESENT) as nat == 0xB8000
  {
    assert SmallFrame(VIDEO | ENABLE_USER | PRESENT) == 0xB8000;
  }

  // ---------------------------------------------------------------- the tables

  ghost function DirEntry(s: Space, table: bv32, d: nat): bv32
    requires s.mapped ==> s.pid < MAX_PROCESSES
  {
    if d == 0 then (if s.video then table | ENABLE_USER | PRESENT else table | PRESENT)
    else if d == 1 then KERNEL | ENABLE_KERNEL | PRESENT
    else if d == 31 && s.mapped then table | ENABLE_USER | PRESENT
    else if d == USER_DIR && s.mapped then UserEntry(s.pid)
    else 0
  }

  ghost function TableEntry(s: Space, t: nat): bv32 {
    if t == VIDEO_ENTRY then VIDEO | PRESENT
    else if t == VIDMAP_ENTRY && s.video then VIDEO | ENABLE_USER | PRESENT
    else 0
  }

  ghost predicate Represents(dir: seq<bv32>, tab: seq<bv32>, table: bv32, s: Space) {
    && |dir| == TABLE_SIZE && |tab| == TABLE_SIZE && table & 0xFFF == 0 && (s.mapped ==> s.pid < MAX_PROCESSES)
    && (forall d :: 0 <= d < TABLE_SIZE ==> dir[d] == DirEntry(s, table, d))
    && (forall t :: 0 <= t < TABLE_SIZE ==> tab[t] == TableEntry(s, t))
  }

  /** For every 32-bit address, the tables let a user program reach exactly what is meant. */
  lemma WalkIsUserView(dir: seq<bv32>, tab: seq<bv32>, table: bv32, s: Space, address: nat)
    requires Represents(dir, tab, table, s) && address < 0x1_0000_0000
    ensures Walk(dir, tab, table, address) == UserView(s, address)
  {
    var d, t := address / FOUR_MEG, address / 0x1000 % TABLE_SIZE;
    assert dir[d] == DirEntry(s, table, d) && tab[t] == TableEntry(s, t);
    TableEntries(table);
    FixedEntries();
    if s.mapped {
      UserEntryIs(s.pid);
    }
  }

  /** Private memory of different processes never overlaps, and never meets the kernel or the video page. */
  lemma PrivateMemoryIsDisjoint(s1: Space, s2: Space, a1: nat, a2: nat)
    requires s1.mapped && s2.mapped && s1.pid < MAX_PROCESSES && s2.pid < MAX_PROCESSES && s1.pid != s2.pid
    requires UserView(s1, a1).Reaches? && UserView(s2, a2).Reaches?
    requires a1 / FOUR_MEG == USER_DIR && a2 / FOUR_MEG == USER_DIR
    ensures UserView(s1, a1).physical != UserView(s2, a2).physical
    ensures UserView(s1, a1).physical >= KERNEL_BOTTOM > 0xB8FFF
  {
  }

  /** No user access reaches the kernel's 4 MB page, where tables, control blocks and stacks live. */
  lemma KernelIsOutOfReach(s: Space, address: nat)
    requires UserView(s, address).Reaches?
    ensures !(FOUR_MEG <= UserView(s, address).physical < KERNEL_BOTTOM)
  {
  }

  // ---------------------------------------------------------------- the kernel's code

  method UserPageEntry(currProcess: bv32, ghost pid: nat) returns (entry: bv32)
    requires currProcess == Bits(pid)
    ensures entry == UserEntry(pid)
  {
    var location := 0x80_0000 + currProcess * 0x40_0000;
    entry := location | ENABLE_KERNEL | ENABLE_USER | PRESENT;
  }

  class Mmu {
    const pageDir: array<bv32>
    const pageTable: array<bv32>
    /** Address of the page table. */
    const table: bv32
    ghost var space: Space

    ghost predicate Valid()
      reads this, pageDir, pageTable
    {
      pageDir != pageTable && Represents(pageDir[..], pageTable[..], table, space)
    }

    /** `paging_init` */
    constructor (table: bv32)
      requires table & 0xFFF == 0
      ensures Valid() && fresh(pageDir) && fresh(pageTable) && space == Space(false, 0, false)
    {
      pageDir := new bv32[1024](_ => 0xFFFF_FFFF);
      pageTable := new bv32[1024](_ => 0xFFFF_FFFF);
      this.table := table;
      space := Space(false, 0, false);
      new;
      for i := 0 to TABLE_SIZE
        invariant forall k :: 0 <= k < i ==> pageDir[k] == 0 && pageTable[k] == 0
        invariant space == Space(false, 0, false)
      {
        pageDir[i] := 0;
        pageTable[i] := 0;
      }
      pageTable[0xB8000 / 0x1000] := VIDEO | PRESENT;
      pageDir[0] := table | PRESENT;
      pageDir[1] := KERNEL | ENABLE_KERNEL | PRESENT;
    }

    method CreatePage(pid: nat)
      requires Valid() && pid < MAX_PROCESSES
      modifies this, pageDir
      ensures Valid() && space == Space(true, pid, old(space).video)
    {
      hide UserEntry;
      var entry := UserPageEntry(Bits(pid), pid);
      pageDir[USER_DIR] := entry;
      pageDir[31] := table | PRESENT | ENABLE_USER;
      space := space.(mapped := true, pid := pid);
      TableEntries(table);
    }

    /** `set_vidmap`: the handed-out address leads to the video page. */
    method SetVidmap() returns (address: nat)
      requires Valid()
      modifies this, pageDir, pageTable
      ensures Valid() && space == old(space).(video := true)
      ensures address == 0x21000 && UserView(space, address) == Reaches(0xB8000)
    {
      pageDir[0] := table | ENABLE_USER | PRESENT;
      pageTable[VIDMAP_ENTRY] := VIDEO | ENABLE_USER | PRESENT;
      space := space.(video := true);
      address := VIDMAP_ENTRY * 0x1000;
    }

    /** What a user access reaches through the tables as they are. */
    method Translate(address: nat) returns (r: Access)
      requires Valid() && address < 0x1_0000_0000
      ensures r == UserView(space, address)
    {
      WalkIsUserView(pageDir[..], pageTable[..], table, space, address);
      r := Walk(pageDir[..], pageTable[..], table, address);
    }
  }

  // ---------------------------------------------------------------- supervisor mode

  predicate Present(entry: bv32) { entry & 0x1 != 0 }

  /** The walk in supervisor mode, where a present entry is enough. */
  function SupervisorWalk(dir: seq<bv32>, tab: seq<bv32>, table: bv32, address: nat): Access
    requires |dir| == TABLE_SIZE && |tab| == TABLE_SIZE && address < 0x1_0000_0000
  {
    var pde := dir[address / FOUR_MEG];
    if !Present(pde) then Fault
    else if LargePage(pde) then Reaches(LargeFrame(pde) as nat + address % FOUR_MEG)
    else if SmallFrame(pde) != table then Fault
    else
      var pte := tab[address / 0x1000 % TABLE_SIZE];
      if !Present(pte) then Fault else Reaches(SmallFrame(pte) as nat + address % 0x1000)
  }

  lemma TableIsPresent(table: bv32)
    requires table & 0xFFF == 0
    ensures var e := table | PRESENT; Present(e) && !LargePage(e) && SmallFrame(e) == table
  {
  }

  lemma FixedIsPresent()
    ensures !Present(0)
    ensures var e := KERNEL | ENABLE_KERNEL | PRESENT; Present(e) && LargePage(e) && LargeFrame(e) as nat == 0x40_0000
    ensures var e := VIDEO | PRESENT; Present(e) && SmallFrame(e) as nat == 0xB8000
    ensures var e := VIDEO | ENABLE_USER | PRESENT; Present(e) && SmallFrame(e) as nat == 0xB8000
  {
    assert LargeFrame(KERNEL | ENABLE_KERNEL | PRESENT) == 0x40_0000;
    assert SmallFrame(VIDEO | PRESENT) == 0xB8000 && SmallFrame(VIDEO | ENABLE_USER | PRESENT) == 0xB8000;
  }

  /** Whatever process is mapped, the kernel reaches its own 4 MB page and video memory where they are. */
  lemma KernelReachesItself(dir: seq<bv32>, tab: seq<bv32>, table: bv32, s: Space, address: nat)
    requires Represents(dir, tab, table, s)
    ensures 0x40_0000 <= address < 0x80_0000 ==> SupervisorWalk(dir, tab, table, address) == Reaches(address)
    ensures 0xB8000 <= address < 0xB9000 ==> SupervisorWalk(dir, tab, table, address) == Reaches(address)
    ensures address < 0x40_0000 && !(0xB8000 <= address < 0xB9000) && !(s.video && 0x21000 <= address < 0x22000) ==>
              SupervisorWalk(dir, tab, table, address) == Fault
    ensures s.mapped && 0x800_0000 <= address < 0x840_0000 ==>
              SupervisorWalk(dir, tab, table, address) == Reaches(FrameOf(s.pid) + (address - 0x800_0000))
  {
    TableIsPresent(table);
    TableEntries(table);
    PresentForUsers(table | ENABLE_USER | PRESENT);
    FixedIsPresent();
    hide SmallFrame;
    hide LargeFrame;
    hide LargePage;
    hide Present;
    hide UserPresent;
    if address < 0x1_0000_0000 {
      var d, t := address / FOUR_MEG, address / 0x1000 % TABLE_SIZE;
      assert dir[d] == DirEntry(s, table, d) && tab[t] == TableEntry(s, t);
      if s.mapped {
        UserEntryIs(s.pid);
        PresentForUsers(UserEntry(s.pid));
      }
    }
  }

  lemma PresentForUsers(entry: bv32)
    requires UserPresent(entry)
    ensures Present(entry)
  {
  }
}
