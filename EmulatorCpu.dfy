/** The standalone emulator's `CpuState`: the same register file as the
 * toolchain's, an MMU that always translates through the page table, and a
 * set of physical memory mappings, each covering a half-open range of
 * physical addresses, through which physical reads and writes are routed. */
module EmulatorCpu {
  import opened Wrappers
  import opened CpuTypes

  type u3 = x: int | 0 <= x < 8

  /** The page table has one entry per 13-bit page-table index. */
  const PageTableSize: nat := 0x2000

  /** A physical memory mapping: the range `start..end` it answers for. */
  datatype MappingRange = MappingRange(start: u24, end: u24)

  predicate Covers(m: MappingRange, address: u24)
  {
    m.start <= address < m.end
  }

  /** Where a physical access goes. */
  datatype Route =
    | Mapped(index: nat, offset: u24)     // the mapping and the address within it
    | NonMappedPhysicalMemory(address: u24, pc: u16)
    | Panics                              // `expect("Memory mappings should not overlap")`

  /** The mappings containing `address`, in order. */
  function Containing(ms: seq<MappingRange>, address: u24): (r: seq<nat>)
    ensures forall k :: 0 <= k < |r| ==> r[k] < |ms| && Covers(ms[r[k]], address)
    ensures forall i :: 0 <= i < |ms| && Covers(ms[i], address) ==> i in r
    ensures forall k, l :: 0 <= k < l < |r| ==> r[k] < r[l]
  {
    if ms == [] then []
    else
      var rest := Containing(ms[..|ms| - 1], address);
      if Covers(ms[|ms| - 1], address) then rest + [|ms| - 1] else rest
  }

  /** `read_memory_phys` / `write_memory_phys`: the single mapping that
   * contains the address is used at `address - start`; no mapping is a
   * `NonMappedPhysicalMemory` error and two or more panic. */
  function RoutePhysical(ms: seq<MappingRange>, address: u24, pc: u16): (r: Route)
    ensures r.Mapped? ==> r.index < |ms| && Covers(ms[r.index], address) && r.offset == address - ms[r.index].start
    ensures r.Mapped? ==> forall i :: 0 <= i < |ms| && i != r.index ==> !Covers(ms[i], address)
    ensures r.NonMappedPhysicalMemory? <==> forall i :: 0 <= i < |ms| ==> !Covers(ms[i], address)
    ensures r.NonMappedPhysicalMemory? ==> r.address == address && r.pc == pc
  {
    var hits := Containing(ms, address);
    if |hits| == 0 then NonMappedPhysicalMemory(address, pc)
    else if |hits| == 1 then Mapped(hits[0], address - ms[hits[0]].start)
    else Panics
  }

  /** Mappings that pairwise do not overlap. */
  predicate Disjoint(ms: seq<MappingRange>)
  {
    forall i, j :: 0 <= i < j < |ms| ==> ms[i].end <= ms[j].start || ms[j].end <= ms[i].start
  }

  /** A physical access panics only when two mappings overlap: with
   * disjoint mappings it never does. */
  lemma {:induction false} PanicsOnlyOnOverlap(ms: seq<MappingRange>, address: u24, pc: u16)
    ensures RoutePhysical(ms, address, pc).Panics? ==> !Disjoint(ms)
  {
    var hits := Containing(ms, address);
    if |hits| >= 2 {
      assert hits[0] < hits[1] && Covers(ms[hits[0]], address) && Covers(ms[hits[1]], address);
    }
  }

  class CpuState {
    const gpr: array<u16>
    var pc: u16
    var contextId: u6
    const pageTable: array<PageTableRecord>
    var physicalMemory: seq<MappingRange>

    ghost predicate Valid()
      reads this
    {
      gpr.Length == 7 && pageTable.Length == PageTableSize
    }

    /** `get_gpr`: `r0` is zero, `rN` lives in `gpr[N - 1]`. */
    function GetGpr(index: u3): (v: u16)
      reads this, gpr
      requires Valid()
      ensures index == 0 ==> v == 0
      ensures index > 0 ==> v == gpr[index - 1]
    {
      if index == 0 then 0 else gpr[index - 1]
    }

    /** `set_gpr`: index 0 is ignored; otherwise only `gpr[index - 1]`
     * changes. */
    method SetGpr(index: u3, value: u16)
      requires Valid()
      modifies gpr
      ensures index == 0 ==> gpr[..] == old(gpr[..])
      ensures index > 0 ==> gpr[..] == old(gpr[..])[index - 1 := value]
      ensures forall g: u3 :: GetGpr(g) == if g == index && g != 0 then value else old(GetGpr(g))
    {
      if index > 0 {
        gpr[index - 1] := value;
      }
    }

    /** `map_memory`: the entry for the current context, the segment and the
     * page must allow the access; its frame then replaces the page number.
     * The segment is a parameter here (the source takes it from the
     * address). */
    function MapMemory(address: VirtualMemoryAddress, segment: VirtualMemorySegment, write: bool): (r: Option<u32>)
      reads this, pageTable
      requires Valid()
      ensures var page := pageTable[PageTableIndexToWord(PageTableIndex(contextId, segment, address.pageNumber))];
        && (r.None? <==> if write then !page.writable else !page.readable)
        && (r.Some? ==> r.value / 1024 == page.frameNumber && r.value % 1024 == address.offset)
    {
      var page := pageTable[PageTableIndexToWord(PageTableIndex(contextId, segment, address.pageNumber))];
      if write && !page.writable then None
      else if !write && !page.readable then None
      else Some(page.frameNumber * 1024 + address.offset)
    }

    /** `write_memory_mapping`: replaces exactly one entry. */
    method WriteMemoryMapping(index: PageTableIndex, record: PageTableRecord)
      requires Valid()
      modifies pageTable
      ensures pageTable[..] == old(pageTable[..])[PageTableIndexToWord(index) := record]
    {
      pageTable[PageTableIndexToWord(index)] := record;
    }

    /** The routing step shared by `read_memory_phys` and
     * `write_memory_phys`. */
    function RouteAccess(address: u24): (r: Route)
      reads this
      ensures r == RoutePhysical(physicalMemory, address, pc)
    {
      RoutePhysical(physicalMemory, address, pc)
    }
  }
}
