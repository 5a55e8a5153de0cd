/** The toolchain emulator's `CpuState`: seven writable general purpose
 * registers behind a hard-wired zero `r0`, the control state that `reset`
 * clears, and the page table of the MMU, which `write_memory_mapping`
 * updates one entry at a time and `virtual_to_physical` consults. */
module Cpu {
  import opened Wrappers
  import opened CpuTypes
  import Registers

  type u2 = x: int | 0 <= x < 4

  /** `PAGE_TABLE_SIZE`: `1 << PageTableIndex::BITS`. */
  const PageTableSize: nat := 0x2000

  /** `PageTableRecord::default()`. */
  const NoAccess := PageTableRecord(false, false, 0)

  /** The state of the processor, as one value: the scalar fields together
   * with the contents of the register file and of the page table. */
  datatype Snapshot = Snapshot(
    gpr: seq<u16>, pc: u16, aluFlags: u16, cpuStatus: CpuStatus, contextId: u6,
    intC: u16, intCause: u16, mmuAddr: u16, step: u2,
    currentInstruction: u16, nextInstruction: u16, pageTable: seq<PageTableRecord>)

  /** The state after `reset`: program counter, status flags, microcode step
   * and current instruction cleared; everything else kept. */
  function AfterReset(s: Snapshot): (t: Snapshot)
    ensures t.pc == 0 && t.step == 0 && t.currentInstruction == 0
    ensures !t.cpuStatus.interruptEnabled && !t.cpuStatus.kernelMode && !t.cpuStatus.mmuEnabled
    ensures t.gpr == s.gpr && t.pageTable == s.pageTable && t.nextInstruction == s.nextInstruction
  {
    s.(pc := 0, cpuStatus := CpuStatus(false, false, false), step := 0, currentInstruction := 0)
  }

  /** `reset` is idempotent. */
  lemma ResetIdempotent(s: Snapshot)
    ensures AfterReset(AfterReset(s)) == AfterReset(s)
  {
  }

  class CpuState {
    const gpr: array<u16>
    var pc: u16
    var aluFlags: u16
    var cpuStatus: CpuStatus
    var contextId: u6
    var intC: u16
    var intCause: u16
    var mmuAddr: u16
    var step: u2
    var currentInstruction: u16
    var nextInstruction: u16
    const pageTable: array<PageTableRecord>

    ghost predicate Valid()
      reads this
    {
      gpr.Length == 7 && pageTable.Length == PageTableSize
    }

    function State(): (s: Snapshot)
      reads this, gpr, pageTable
      ensures s.gpr == gpr[..] && s.pageTable == pageTable[..]
    {
      Snapshot(gpr[..], pc, aluFlags, cpuStatus, contextId, intC, intCause, mmuAddr, step,
               currentInstruction, nextInstruction, pageTable[..])
    }

    /** `CpuState::new`: every field zero-filled, then `reset`. */
    constructor ()
      ensures Valid() && fresh(gpr) && fresh(pageTable)
      ensures State() == AfterReset(Snapshot(seq(7, _ => 0), 0, 0, CpuStatus(false, false, false), 0,
                                             0, 0, 0, 0, 0, 0, seq(PageTableSize, _ => NoAccess)))
    {
      gpr := new u16[7](_ => 0);
      pc := 0;
      aluFlags := 0;
      cpuStatus := CpuStatus(false, false, false);
      contextId := 0;
      intC := 0;
      intCause := 0;
      mmuAddr := 0;
      step := 0;
      currentInstruction := 0;
      nextInstruction := 0;
      pageTable := new PageTableRecord[PageTableSize](_ => NoAccess);
    }

    /** `reset`. */
    method Reset()
      requires Valid()
      modifies this
      ensures Valid() && State() == AfterReset(old(State()))
    {
      pc := 0;
      cpuStatus := CpuStatus(false, false, false);
      step := 0;
      currentInstruction := 0;
    }

    /** `get_gpr`: `r0` reads as zero, `rN` is stored in `gpr[N - 1]`. */
    function GetGpr(index: Registers.Gpr): (v: u16)
      reads this, gpr
      requires Valid()
      ensures index.index == 0 ==> v == 0
      ensures index.index > 0 ==> v == gpr[index.index - 1]
    {
      if index.index == 0 then 0 else gpr[index.index - 1]
    }

    /** `set_gpr`: a write to `r0` is dropped; any other register takes the
     * value and every other register keeps its own. */
    method SetGpr(index: Registers.Gpr, value: u16)
      requires Valid()
      modifies gpr
      ensures Valid()
      ensures index.index == 0 ==> gpr[..] == old(gpr[..])
      ensures index.index > 0 ==> gpr[..] == old(gpr[..])[index.index - 1 := value]
      ensures forall g: Registers.Gpr :: GetGpr(g) == if g == index && g.index != 0 then value else old(GetGpr(g))
    {
      if index.index > 0 {
        gpr[index.index - 1] := value;
      }
    }

    /** The page-table entry for an index: `page_table[usize::from(index)]`. */
    function Page(index: PageTableIndex): (r: PageTableRecord)
      reads this, pageTable
      requires Valid()
      ensures r == pageTable[PageTableIndexToWord(index)]
    {
      pageTable[PageTableIndexToWord(index)]
    }

    /** `virtual_to_physical`. */
    function VirtualToPhysical(address: VirtualMemoryAddress, segment: VirtualMemorySegment, write: bool): (r: Option<PhysicalMemoryAddress>)
      reads this, pageTable
      requires Valid()
      ensures r == Translate(State(), address, segment, write)
    {
      if cpuStatus.mmuEnabled then
        var page := pageTable[PageTableIndexToWord(PageTableIndex(contextId, segment, address.pageNumber))];
        if (write && !page.writable) || (!write && !page.readable) then None
        else Some(PhysicalMemoryAddress(page.frameNumber, address.offset))
      else
        Some(PhysicalMemoryAddress(if segment == Data then 0 else 0x2000, address.offset))
    }

    /** `write_memory_mapping`: exactly one page-table entry changes. */
    method WriteMemoryMapping(index: PageTableIndex, record: PageTableRecord)
      requires Valid()
      modifies pageTable
      ensures Valid()
      ensures pageTable[..] == old(pageTable[..])[PageTableIndexToWord(index) := record]
      ensures Page(index) == record
      ensures forall other: PageTableIndex :: other != index ==> Page(other) == old(Page(other))
    {
      pageTable[PageTableIndexToWord(index)] := record;
      forall other: PageTableIndex | other != index
        ensures PageTableIndexToWord(other) != PageTableIndexToWord(index)
      {
        PageTableIndexRoundTrip(other);
        PageTableIndexRoundTrip(index);
      }
    }

    /** `end_instruction`: the prefetched instruction becomes current and the
     * microcode step restarts. */
    method EndInstruction()
      requires Valid()
      modifies this
      ensures Valid()
      ensures State() == old(State()).(currentInstruction := old(nextInstruction), step := 0)
    {
      currentInstruction := nextInstruction;
      step := 0;
    }
  }

  /** The page-table entry that an index selects, in a state. */
  function PageIn(s: Snapshot, index: PageTableIndex): (r: PageTableRecord)
    requires |s.pageTable| == PageTableSize
    ensures r == s.pageTable[PageTableIndexToWord(index)]
  {
    s.pageTable[PageTableIndexToWord(index)]
  }

  /** Address translation over a state: with the MMU on, the entry for the
   * current context, the segment and the page must grant the access, and
   * its frame replaces the page; with the MMU off, data lives in frame 0 and
   * program in frame `1 << 13`. The page offset is kept either way. */
  function Translate(s: Snapshot, address: VirtualMemoryAddress, segment: VirtualMemorySegment, write: bool): (r: Option<PhysicalMemoryAddress>)
    requires |s.pageTable| == PageTableSize
  {
    if s.cpuStatus.mmuEnabled then
      var page := PageIn(s, PageTableIndex(s.contextId, segment, address.pageNumber));
      if (write && !page.writable) || (!write && !page.readable) then None
      else Some(PhysicalMemoryAddress(page.frameNumber, address.offset))
    else
      Some(PhysicalMemoryAddress(if segment == Data then 0 else 0x2000, address.offset))
  }

  /** Translation keeps the page offset, fails only with the MMU on, and then
   * exactly when the entry forbids the access. */
  lemma TranslateSpec(s: Snapshot, address: VirtualMemoryAddress, segment: VirtualMemorySegment, write: bool)
    requires |s.pageTable| == PageTableSize
    ensures var r := Translate(s, address, segment, write);
      var page := PageIn(s, PageTableIndex(s.contextId, segment, address.pageNumber));
      && (r.Some? ==> r.value.offset == address.offset)
      && (r.None? <==> s.cpuStatus.mmuEnabled && (if write then !page.writable else !page.readable))
      && (r.Some? && s.cpuStatus.mmuEnabled ==> r.value.frameNumber == page.frameNumber)
  {
  }

  /** With the MMU off the page number plays no part: two virtual addresses
   * with the same page offset reach the same physical word. */
  lemma TranslateWithoutMmuIgnoresPage(s: Snapshot, a: VirtualMemoryAddress, b: VirtualMemoryAddress,
                                       segment: VirtualMemorySegment, write: bool)
    requires |s.pageTable| == PageTableSize && !s.cpuStatus.mmuEnabled && a.offset == b.offset
    ensures Translate(s, a, segment, write) == Translate(s, b, segment, write)
  {
  }

  /** After `reset` the MMU is off, so the first instruction fetch (program
   * segment, address 0) goes to physical word `0x800000`, the start of the
   * ROM window of the system memory map. */
  lemma BootFetchAddress(s: Snapshot)
    requires |s.pageTable| == PageTableSize
    ensures var r := Translate(AfterReset(s), VirtualFromWord(AfterReset(s).pc), Program, false);
      r.Some? && PhysicalToU24(r.value) == 0x80_0000
  {
    assert VirtualFromWord(0) == VirtualMemoryAddress(0, 0) by {
      VirtualRoundTrip(VirtualMemoryAddress(0, 0));
    }
    assert PhysicalToU24(PhysicalMemoryAddress(0x2000, 0)) == 0x80_0000;
  }

  /** Installing an entry and translating through it: with the MMU on, an
   * access the new entry grants lands in its frame, whatever the entry was
   * before. */
  lemma TranslateAfterMapping(s: Snapshot, index: PageTableIndex, record: PageTableRecord,
                              address: VirtualMemoryAddress, write: bool)
    requires |s.pageTable| == PageTableSize && s.cpuStatus.mmuEnabled
    requires index == PageTableIndex(s.contextId, index.segment, address.pageNumber)
    requires if write then record.writable else record.readable
    ensures var t := s.(pageTable := s.pageTable[PageTableIndexToWord(index) := record]);
      Translate(t, address, index.segment, write) == Some(PhysicalMemoryAddress(record.frameNumber, address.offset))
  {
  }
}
