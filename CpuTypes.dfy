/** The bit-field types of the CPU and its MMU, as the emulator toolchain and
 * the standalone emulator pack them into words: the status register, virtual
 * and physical addresses, and the page-table index and record.
 *
 * A virtual address is a 6-bit page number above a 10-bit page offset; a
 * physical address is a 14-bit frame number above the same offset. */
module CpuTypes {
  import opened Wrappers

  type u16 = x: int | 0 <= x < 0x1_0000
  type u24 = x: int | 0 <= x < 0x100_0000
  type u32 = x: int | 0 <= x < 0x1_0000_0000
  type u6 = x: int | 0 <= x < 64
  type u10 = x: int | 0 <= x < 1024
  type u14 = x: int | 0 <= x < 0x4000

  function Bit(b: bool): (r: nat)
    ensures r < 2 && (r == 1 <==> b)
  {
    if b then 1 else 0
  }

  // ---------------------------------------------------------------- status

  datatype CpuStatus = CpuStatus(interruptEnabled: bool, kernelMode: bool, mmuEnabled: bool)

  /** The defined bits of the status word. */
  const CpuStatusMask: u16 := 0x0007

  /** `From<&CpuStatus> for Word`: bit 0 interrupts, bit 1 kernel mode,
   * bit 2 MMU; nothing outside `CpuStatusMask` is set. */
  function CpuStatusToWord(s: CpuStatus): (w: u16)
    ensures w <= CpuStatusMask
    ensures w % 2 == Bit(s.interruptEnabled)
    ensures w / 2 % 2 == Bit(s.kernelMode)
    ensures w / 4 == Bit(s.mmuEnabled)
  {
    Bit(s.interruptEnabled) + Bit(s.kernelMode) * 2 + Bit(s.mmuEnabled) * 4
  }

  /** `TryFrom<Word> for CpuStatus`: a word with a bit outside the mask is a
   * `ReservedBitNonzero` error carrying the word. */
  function CpuStatusTryFrom(w: u16): (r: Result<CpuStatus, u16>)
    ensures r.Ok? <==> w <= CpuStatusMask
    ensures r.Err? ==> r.error == w
  {
    if w >= 8 then Err(w)
    else Ok(CpuStatus(w % 2 != 0, w / 2 % 2 != 0, w / 4 % 2 != 0))
  }

  /** `test_cpu_status_roundtrip1`. */
  lemma CpuStatusRoundTrip(s: CpuStatus)
    ensures CpuStatusTryFrom(CpuStatusToWord(s)) == Ok(s)
  {
  }

  /** `test_cpu_status_roundtrip2`: every word inside the mask round-trips. */
  lemma CpuStatusWordRoundTrip(w: u16)
    requires w <= CpuStatusMask
    ensures CpuStatusTryFrom(w).Ok? && CpuStatusToWord(CpuStatusTryFrom(w).value) == w
  {
  }

  // ------------------------------------------------------ virtual addresses

  datatype VirtualMemoryAddress = VirtualMemoryAddress(pageNumber: u6, offset: u10)

  /** `page_number << 10 | offset`. */
  function VirtualToWord(a: VirtualMemoryAddress): (w: u16)
    ensures w / 1024 == a.pageNumber && w % 1024 == a.offset
  {
    a.pageNumber * 1024 + a.offset
  }

  /** `From<Word> for VirtualMemoryAddress`: `v >> 10` and `v & 0x3ff`. */
  function VirtualFromWord(w: u16): (a: VirtualMemoryAddress)
    ensures VirtualToWord(a) == w
  {
    VirtualMemoryAddress(w / 1024, w % 1024)
  }

  /** `test_virtual_memory_address_roundtrip1`; the other direction is the
   * postcondition of `VirtualFromWord`. */
  lemma VirtualRoundTrip(a: VirtualMemoryAddress)
    ensures VirtualFromWord(VirtualToWord(a)) == a
  {
  }

  /** `test_virtual_memory_address_from_word_example`. */
  lemma VirtualFromWordExample()
    ensures VirtualFromWord(0xab33) == VirtualMemoryAddress(0x2a, 0x333)
  {
  }

  // ----------------------------------------------------- physical addresses

  datatype PhysicalMemoryAddress = PhysicalMemoryAddress(frameNumber: u14, offset: u10)

  /** `frame_number << 10 | offset`, a 24-bit value. */
  function PhysicalToU24(a: PhysicalMemoryAddress): (v: u24)
    ensures v / 1024 == a.frameNumber && v % 1024 == a.offset
  {
    a.frameNumber * 1024 + a.offset
  }

  /** `From<u24> for PhysicalMemoryAddress`. */
  function PhysicalFromU24(v: u24): (a: PhysicalMemoryAddress)
    ensures PhysicalToU24(a) == v
  {
    PhysicalMemoryAddress(v / 1024, v % 1024)
  }

  lemma PhysicalRoundTrip(a: PhysicalMemoryAddress)
    ensures PhysicalFromU24(PhysicalToU24(a)) == a
  {
  }

  /** `test_physical_memory_address_from_word_example`. */
  lemma PhysicalFromU24Example()
    ensures PhysicalFromU24(0xaa_ab33) == PhysicalMemoryAddress(0x2aaa, 0x333)
  {
  }

  /** The standalone emulator's `TryFrom<u32>`: the frame number `v >> 10`
   * must fit 14 bits, so exactly the 24-bit values convert. */
  function PhysicalTryFromU32(v: u32): (r: Option<PhysicalMemoryAddress>)
    ensures r.Some? <==> v < 0x100_0000
    ensures r.Some? ==> PhysicalToU24(r.value) == v
  {
    if v / 1024 < 0x4000 then Some(PhysicalFromU24(v)) else None
  }

  // ------------------------------------------------------ page-table index

  datatype VirtualMemorySegment = Data | Program

  function SegmentToU16(s: VirtualMemorySegment): (v: nat)
    ensures v < 2 && (v == 1 <==> s == Program)
  {
    if s == Program then 1 else 0
  }

  datatype PageTableIndex = PageTableIndex(contextId: u6, segment: VirtualMemorySegment, pageNumber: u6)

  /** `PageTableIndex::BITS`: 7 + 6. */
  const PageTableIndexBits: nat := 13

  /** `context_id << 7 | segment << 6 | page_number`. */
  function PageTableIndexToWord(i: PageTableIndex): (w: u16)
    ensures w < 0x2000
    ensures w / 128 == i.contextId && w / 64 % 2 == SegmentToU16(i.segment) && w % 64 == i.pageNumber
  {
    i.contextId * 128 + SegmentToU16(i.segment) * 64 + i.pageNumber
  }

  /** `TryFrom<Word> for PageTableIndex`: fails when the context id `v >> 7`
   * does not fit 6 bits. */
  function PageTableIndexTryFrom(w: u16): (r: Option<PageTableIndex>)
    ensures r.Some? <==> w < 0x2000
    ensures r.Some? ==> PageTableIndexToWord(r.value) == w
  {
    if w / 128 >= 64 then None
    else Some(PageTableIndex(w / 128, if w / 64 % 2 == 1 then Program else Data, w % 64))
  }

  /** `test_page_table_index_roundtrip1`. */
  lemma PageTableIndexRoundTrip(i: PageTableIndex)
    ensures PageTableIndexTryFrom(PageTableIndexToWord(i)) == Some(i)
  {
  }

  /** `test_page_table_index_from_word_example`. */
  lemma PageTableIndexExample()
    ensures PageTableIndexTryFrom(0x1c73) == Some(PageTableIndex(0x38, Program, 0x33))
  {
  }

  // ----------------------------------------------------- page-table record

  datatype PageTableRecord = PageTableRecord(readable: bool, writable: bool, frameNumber: u14)

  /** `readable << 15 | writable << 14 | frame_number`. */
  function PageTableRecordToWord(r: PageTableRecord): (w: u16)
    ensures w / 0x8000 == Bit(r.readable) && w / 0x4000 % 2 == Bit(r.writable)
    ensures w % 0x4000 == r.frameNumber
  {
    Bit(r.readable) * 0x8000 + Bit(r.writable) * 0x4000 + r.frameNumber
  }

  /** `From<Word> for PageTableRecord`. */
  function PageTableRecordFromWord(w: u16): (r: PageTableRecord)
    ensures PageTableRecordToWord(r) == w
  {
    PageTableRecord(w / 0x8000 % 2 != 0, w / 0x4000 % 2 != 0, w % 0x4000)
  }

  /** `test_page_table_record_roundtrip1`. */
  lemma PageTableRecordRoundTrip(r: PageTableRecord)
    ensures PageTableRecordFromWord(PageTableRecordToWord(r)) == r
  {
  }

  /** `test_page_table_record_from_word_example`. */
  lemma PageTableRecordExample()
    ensures PageTableRecordFromWord(0xb333) == PageTableRecord(true, false, 0x3333)
  {
  }
}
