/** The standalone emulator's whole machine: the CPU and the devices mapped
 * into the 24-bit physical word address space. The memory map is RAM from
 * 0x000000, the ROM (device 0) in the window 0x800000-0x8fffff, and further
 * devices in the 2^20-word windows above it. */
module System {
  import opened Wrappers
  import opened CpuTypes
  import Memory
  import Cpu

  /** `Ram::new(1 * 1024 * 1024)`: the RAM `SystemState::new` allocates. */
  const RamWords: nat := 0x10_0000

  /** Start of the ROM window in the memory map. */
  const RomBase: u24 := 0x80_0000

  /** `max_address`: the whole `u24` range can be accessed without panicking. */
  const SystemMaxAddress: u24 := 0xff_ffff

  /** `address >> 20`: the window an address falls into. */
  function Window(address: u24): (w: nat)
    ensures w < 16 && w * 0x10_0000 <= address < (w + 1) * 0x10_0000
  {
    address / 0x10_0000
  }

  /** `address & 0x0fffff`: the address within its window. */
  function WindowOffset(address: u24): (o: nat)
    ensures o < 0x10_0000 && Window(address) * 0x10_0000 + o == address
  {
    address % 0x10_0000
  }

  class SystemDevices {
    const ram: Memory.Ram
    const rom: Memory.Rom

    ghost predicate Valid()
    {
      && 1 <= ram.data.Length <= 0x100_0000
      && 1 <= rom.data.Length <= 0x100_0000
      && ram.data != rom.data
    }

    constructor (ram: Memory.Ram, rom: Memory.Rom)
      requires 1 <= ram.data.Length <= 0x100_0000 && 1 <= rom.data.Length <= 0x100_0000
      requires ram.data != rom.data
      ensures Valid() && this.ram == ram && this.rom == rom
    {
      this.ram := ram;
      this.rom := rom;
    }

    /** `read` as written: above the RAM the device id is the window number
     * itself, and only device 0 (the ROM) answers. */
    function ReadAsWritten(address: u24): (r: Option<u16>)
      reads ram.data, rom.data
      requires Valid()
      ensures address <= ram.MaxAddress() ==> r == ram.Read(address)
      ensures address > ram.MaxAddress() ==>
        r == if Window(address) == 0 && WindowOffset(address) <= rom.MaxAddress() then rom.Read(WindowOffset(address)) else None
    {
      if address <= ram.MaxAddress() then ram.Read(address)
      else
        var deviceId := Window(address);
        var deviceAddress := WindowOffset(address);
        if deviceId == 0 && deviceAddress <= rom.MaxAddress() then rom.Read(deviceAddress) else None
    }

    /** `read` with the device numbering of the memory map: the ROM is the
     * device in the window starting at `RomBase`. */
    function Read(address: u24): (r: Option<u16>)
      reads ram.data, rom.data
      requires Valid()
      ensures address <= ram.MaxAddress() ==> r == ram.Read(address)
      ensures address > ram.MaxAddress() ==>
        r == if Window(address) == Window(RomBase) && WindowOffset(address) <= rom.MaxAddress() then rom.Read(WindowOffset(address)) else None
    {
      if address <= ram.MaxAddress() then ram.Read(address)
      else
        var deviceAddress := WindowOffset(address);
        if Window(address) == Window(RomBase) && deviceAddress <= rom.MaxAddress() then rom.Read(deviceAddress) else None
    }

    /** `write`: only the RAM accepts writes; above it the answer is `None`
     * and nothing changes. */
    method Write(address: u24, value: u16) returns (r: Option<()>)
      requires Valid()
      modifies ram.data
      ensures r.Some? <==> address <= ram.MaxAddress()
      ensures r.Some? ==> ram.data[..] == old(ram.data[..])[address := value]
      ensures r.None? ==> ram.data[..] == old(ram.data[..])
    {
      if address <= ram.MaxAddress() {
        r := ram.Write(address, value);
      } else {
        r := None;
      }
    }
  }

  /** As written, with the RAM `SystemState::new` allocates, no read above
   * the RAM succeeds: the first window is all RAM, so device 0 is never
   * selected and the ROM cannot be read at all. */
  lemma RomUnreachableAsWritten(sys: SystemDevices, address: u24)
    requires sys.Valid() && sys.ram.data.Length == RamWords
    requires address >= RamWords
    ensures sys.ReadAsWritten(address) == None
  {
  }

  /** With the memory map's numbering, every ROM word is read at
   * `RomBase + k`, as long as the RAM stays below the ROM window. */
  lemma RomReadable(sys: SystemDevices, k: nat)
    requires sys.Valid() && sys.ram.data.Length <= RomBase
    requires k < sys.rom.data.Length && k < 0x10_0000
    ensures sys.Read(RomBase + k) == Some(sys.rom.data[k])
  {
    assert Window(RomBase + k) == 8 && WindowOffset(RomBase + k) == k by {
      DivModWindow(RomBase + k, 8, k);
    }
  }

  lemma DivModWindow(address: u24, w: nat, o: nat)
    requires o < 0x10_0000 && address == w * 0x10_0000 + o
    ensures Window(address) == w && WindowOffset(address) == o
  {
  }

  /** Both readings agree on the RAM. */
  lemma ReadsAgreeOnRam(sys: SystemDevices, address: u24)
    requires sys.Valid() && address < sys.ram.data.Length
    ensures sys.Read(address) == sys.ReadAsWritten(address) == Some(sys.ram.data[address])
  {
  }

  class SystemState {
    const cpu: Cpu.CpuState
    const devices: SystemDevices

    ghost predicate Valid()
      reads cpu
    {
      cpu.Valid() && devices.Valid()
    }

    /** `SystemState::new`: a CPU in its reset state, 1M words of zeroed
     * RAM, and the ROM holding the loaded image. */
    constructor (image: seq<u16>)
      requires 1 <= |image| <= 0x100_0000
      ensures Valid()
      ensures cpu.State() == Cpu.AfterReset(cpu.State())
      ensures devices.ram.data[..] == seq(RamWords, _ => 0) && devices.rom.data[..] == image
    {
      cpu := new Cpu.CpuState();
      var ram := new Memory.Ram(RamWords);
      var rom := new Memory.Rom(image);
      devices := new SystemDevices(ram, rom);
    }

    /** `reset`: only the CPU is reset. */
    method Reset()
      requires Valid()
      modifies cpu
      ensures Valid() && cpu.State() == Cpu.AfterReset(old(cpu.State()))
    {
      cpu.Reset();
    }
  }

  /** After a reset the first instruction is fetched from physical word
   * `RomBase`: as written that read finds no device, while with the memory
   * map's numbering it returns the first ROM word. */
  lemma BootFetch(sys: SystemDevices, s: Cpu.Snapshot)
    requires sys.Valid() && sys.ram.data.Length == RamWords
    requires |s.pageTable| == Cpu.PageTableSize
    ensures var p := Cpu.Translate(Cpu.AfterReset(s), VirtualFromWord(0), Program, false);
      && p.Some? && PhysicalToU24(p.value) == RomBase
      && sys.ReadAsWritten(PhysicalToU24(p.value)) == None
      && sys.Read(PhysicalToU24(p.value)) == Some(sys.rom.data[0])
  {
    Cpu.BootFetchAddress(s);
    RomUnreachableAsWritten(sys, RomBase);
    RomReadable(sys, 0);
  }
}
