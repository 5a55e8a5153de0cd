/** The word-addressed physical memories of the emulator: `Ram`, a zero-filled
 * buffer of 16-bit words that `write` updates in place, and `Rom`, a buffer
 * loaded once from an Intel HEX image that refuses every write.
 *
 * The two copies in the toolchain (`memory.rs` and `emulator/memory.rs`) are
 * the same code; the standalone emulator's `Ram` differs only in reporting
 * its `size` instead of its `max_address`. */
module Memory {
  import opened Wrappers

  type u16 = x: int | 0 <= x < 0x1_0000
  type u24 = x: int | 0 <= x < 0x100_0000
  type u32 = x: int | 0 <= x < 0x1_0000_0000

  class Ram {
    /** The boxed slice: its length is fixed at construction, its words are
     * written in place. */
    const data: array<u16>

    /** `Ram::new(size)`: `size` zero words. */
    constructor (size: u32)
      ensures fresh(data)
      ensures data[..] == seq(size, _ => 0)
    {
      data := new u16[size](_ => 0);
    }

    /** `max_address`: the last valid address. An empty RAM underflows the
     * subtraction and one longer than 2^24 words fails the `u24`
     * conversion; both panic. */
    function MaxAddress(): (m: u24)
      requires 1 <= data.Length <= 0x100_0000
      ensures m < data.Length && m + 1 == data.Length
    {
      data.Length - 1
    }

    /** The standalone emulator's `size`: the number of words. */
    function Size(): (n: u32)
      requires data.Length < 0x1_0000_0000
      ensures n == data.Length
    {
      data.Length
    }

    /** `read`: always `Some` within the buffer; indexing past it panics. */
    function Read(address: nat): (v: Option<u16>)
      reads data
      requires address < data.Length
      ensures v.Some? && v.value == data[address]
    {
      Some(data[address])
    }

    /** `write`: stores `value` at `address` and nothing else changes, so a
     * following read at the same address gives `value` back. */
    method Write(address: nat, value: u16) returns (r: Option<()>)
      requires address < data.Length
      modifies data
      ensures r == Some(())
      ensures data[..] == old(data[..])[address := value]
      ensures Read(address) == Some(value)
      ensures forall a :: 0 <= a < data.Length && a != address ==> Read(a) == old(Read(a))
    {
      data[address] := value;
      r := Some(());
    }
  }

  class Rom {
    const data: array<u16>

    /** `Rom::from_ihex`, given the word image the loader produced. */
    constructor (image: seq<u16>)
      ensures fresh(data)
      ensures data[..] == image
    {
      data := new u16[|image|](i requires 0 <= i < |image| => image[i]);
    }

    function MaxAddress(): (m: u24)
      requires 1 <= data.Length <= 0x100_0000
      ensures m < data.Length && m + 1 == data.Length
    {
      data.Length - 1
    }

    function Read(address: nat): (v: Option<u16>)
      reads data
      requires address < data.Length
      ensures v.Some? && v.value == data[address]
    {
      Some(data[address])
    }

    /** `write`: a ROM is not writable; the answer is `None` and the contents
     * stay as they are (the method may modify nothing). */
    method Write(address: nat, value: u16) returns (r: Option<()>)
      ensures r.None?
    {
      r := None;
    }
  }
}
