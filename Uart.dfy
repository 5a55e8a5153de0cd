/** The emulator's UART device (`emulator/devices/uart.c`): a ring buffer of
 * received bytes that the program reads through three word registers,
 * and an output that every write to the value register sends a byte to.
 *
 * The ring holds `FifoSize` bytes between `readFifoFirst` (inclusive) and
 * `readFifoLast` (exclusive), wrapping around the end of the array. As
 * written, reading the value register does not check that the ring holds
 * anything, and the `char` read is sign-extended into the 16-bit word;
 * `asWritten` selects that behaviour, the corrected one returns 0 from an
 * empty ring without moving it and zero-extends the byte. */
module Uart {
  import IhexWriter

  type u8 = IhexWriter.u8
  type u16 = x: int | 0 <= x < 0x1_0000

  /** `DEV_UART_FIFO_SIZE`. */
  const FifoSize: nat := 8

  /** The register offsets. */
  const ReadFifoCountOffset: nat := 0
  const WriteFifoCountOffset: nat := 1
  const ValueOffset: nat := 2

  /** `read_fifo_items`. */
  function ItemCount(first: nat, last: nat): (n: int)
  {
    if last >= first then last - first else FifoSize - first + last
  }

  /** The bytes in the ring, oldest first. */
  function FifoItems(fifo: seq<u8>, first: nat, last: nat): (items: seq<u8>)
    requires |fifo| == FifoSize && first < FifoSize && last < FifoSize
  {
    if last >= first then fifo[first..last] else fifo[first..] + fifo[..last]
  }

  /** The count register is the number of bytes in the ring, always fewer
   * than the ring's size, and zero exactly when the ends meet. */
  lemma ItemCountIsLength(fifo: seq<u8>, first: nat, last: nat)
    requires |fifo| == FifoSize && first < FifoSize && last < FifoSize
    ensures ItemCount(first, last) == |FifoItems(fifo, first, last)| < FifoSize
    ensures ItemCount(first, last) == 0 <==> first == last
  {
  }

  /** The first index after `i` around the ring. */
  function Next(i: nat): (j: nat)
    requires i < FifoSize
    ensures j < FifoSize && j == (i + 1) % FifoSize
  {
    if i + 1 >= FifoSize then 0 else i + 1
  }

  /** Advancing past the oldest byte of a non-empty ring removes exactly
   * that byte. */
  lemma PopRemovesOldest(fifo: seq<u8>, first: nat, last: nat)
    requires |fifo| == FifoSize && first < FifoSize && last < FifoSize && first != last
    ensures FifoItems(fifo, first, last) != []
    ensures FifoItems(fifo, Next(first), last) == FifoItems(fifo, first, last)[1..]
  {
    if last < first && Next(first) == 0 {
      assert fifo[first..] == [fifo[first]];
    }
  }

  /** Advancing past the oldest byte of an empty ring makes it look full
   * but one: the count register jumps from 0 to 7. */
  lemma PopEmptyWraps(fifo: seq<u8>, first: nat)
    requires |fifo| == FifoSize && first < FifoSize
    ensures FifoItems(fifo, first, first) == []
    ensures |FifoItems(fifo, Next(first), first)| == FifoSize - 1
  {
    ItemCountIsLength(fifo, Next(first), first);
  }

  /** A `char` (signed here) widened to a 16-bit word. */
  function CharToWord(b: u8, asWritten: bool): (w: u16)
    ensures b < 0x80 || !asWritten ==> w == b
    ensures b >= 0x80 && asWritten ==> w == 0xff00 + b && w != b
  {
    if asWritten && b >= 0x80 then 0xff00 + b else b
  }

  /** A `struct dev_uart`. The bytes written go to `output`. */
  class DevUart {
    const readFifo: array<u8>
    var readFifoFirst: nat
    var readFifoLast: nat
    var output: seq<u8>

    predicate Valid()
      reads this
    {
      readFifo.Length == FifoSize && readFifoFirst < FifoSize && readFifoLast < FifoSize
    }

    /** The received bytes not yet read. */
    function Items(): (items: seq<u8>)
      reads this, readFifo
      requires Valid()
      ensures |items| < FifoSize
    {
      ItemCountIsLength(readFifo[..], readFifoFirst, readFifoLast);
      FifoItems(readFifo[..], readFifoFirst, readFifoLast)
    }

    /** `dev_uart_init`: an empty ring and nothing written. */
    constructor ()
      ensures Valid() && readFifoFirst == 0 && readFifoLast == 0 && Items() == [] && output == []
      ensures fresh(readFifo)
    {
      readFifo := new u8[FifoSize];
      readFifoFirst, readFifoLast := 0, 0;
      output := [];
    }

    /** `read_fun`: the count register gives the number of received
     * bytes, the write count register is always 0 (writes finish at
     * once), the value register pops the oldest byte, and every other
     * offset reads as 0. */
    method Read(offset: nat, asWritten: bool) returns (v: u16)
      requires Valid()
      modifies this
      ensures Valid() && readFifoLast == old(readFifoLast) && output == old(output)
      ensures offset != ValueOffset ==> readFifoFirst == old(readFifoFirst)
      ensures offset == ReadFifoCountOffset ==> v == |Items()|
      ensures offset != ReadFifoCountOffset && offset != ValueOffset ==> v == 0
      ensures offset == ValueOffset && old(Items()) != [] ==>
        v == CharToWord(old(Items())[0], asWritten) && Items() == old(Items())[1..]
      ensures offset == ValueOffset && old(Items()) == [] && asWritten ==>
        v == CharToWord(readFifo[old(readFifoFirst)], true) && |Items()| == FifoSize - 1
      ensures offset == ValueOffset && old(Items()) == [] && !asWritten ==>
        v == 0 && readFifoFirst == old(readFifoFirst)
    {
      ItemCountIsLength(readFifo[..], readFifoFirst, readFifoLast);
      if offset == ReadFifoCountOffset {
        v := ItemCount(readFifoFirst, readFifoLast);
      } else if offset == WriteFifoCountOffset {
        v := 0;
      } else if offset == ValueOffset {
        if !asWritten && readFifoFirst == readFifoLast {
          v := 0;
        } else {
          v := ReadByte(asWritten);
        }
      } else {
        v := 0;
      }
    }

    /** `read_byte`: the byte at the head of the ring, which then moves
     * on by one, around the end of the array. */
    method ReadByte(asWritten: bool) returns (v: u16)
      requires Valid()
      modifies this
      ensures Valid() && readFifoLast == old(readFifoLast) && output == old(output)
      ensures v == CharToWord(readFifo[old(readFifoFirst)], asWritten)
      ensures readFifoFirst == Next(old(readFifoFirst))
      ensures old(Items()) != [] ==> v == CharToWord(old(Items())[0], asWritten) && Items() == old(Items())[1..]
      ensures old(Items()) == [] ==> |Items()| == FifoSize - 1
    {
      ItemCountIsLength(readFifo[..], readFifoFirst, readFifoLast);
      v := CharToWord(readFifo[readFifoFirst], asWritten);
      if readFifoFirst != readFifoLast {
        PopRemovesOldest(readFifo[..], readFifoFirst, readFifoLast);
      } else {
        PopEmptyWraps(readFifo[..], readFifoFirst);
      }
      readFifoFirst := readFifoFirst + 1;
      if readFifoFirst >= FifoSize {
        readFifoFirst := 0;
      }
    }

    /** `write_fun`: a write to the value register outputs its low byte;
     * writes to the other registers are ignored. */
    method Write(offset: nat, value: u16)
      requires Valid()
      modifies this
      ensures Valid() && readFifoFirst == old(readFifoFirst) && readFifoLast == old(readFifoLast)
      ensures offset == ValueOffset ==> output == old(output) + [value % 0x100]
      ensures offset != ValueOffset ==> output == old(output)
    {
      if offset == ValueOffset {
        output := output + [value % 0x100];
      }
    }
  }

  /** The finding: reading the value register of a freshly initialised
   * UART returns whatever the ring's first byte holds and then reports
   * seven bytes waiting; corrected, it returns 0 and the ring stays
   * empty. */
  method ReadEmptyUart(asWritten: bool) returns (v: u16, count: u16)
    ensures !asWritten ==> v == 0 && count == 0
    ensures asWritten ==> count == FifoSize - 1
  {
    var uart := new DevUart();
    v := uart.Read(ValueOffset, asWritten);
    count := uart.Read(ReadFifoCountOffset, asWritten);
  }
}
