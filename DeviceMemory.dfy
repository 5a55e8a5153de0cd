/** The C emulator's memory device (`emulator/devices/memory.c`): a buffer
 * of 16-bit words mapped into the physical address space, read and written
 * word by word, optionally refusing writes, and filled from an Intel HEX
 * image whose bytes are stored big-endian, two to a word.
 *
 * The image bytes are held in a `char` buffer. Where `char` is signed, a
 * byte of `0x80` or more that lands in the low half of a word is
 * sign-extended before the OR that combines it with the high half, so the
 * high half becomes `0xff`; `asWritten` selects that reading, the
 * corrected one treats the bytes as unsigned. */
module DeviceMemory {
  import opened Wrappers
  import IhexWriter
  import IhexReader
  import CStack

  type u8 = IhexWriter.u8
  type u16 = x: int | 0 <= x < 0x1_0000

  // ------------------------------------------------ copy_bytes_to_words

  /** One word made of a high and a low byte, the low byte going through a
   * signed `char` as written. */
  function PairWord(hi: u8, lo: u8, asWritten: bool): (w: u16)
    ensures !asWritten || lo < 0x80 ==> w / 256 == hi && w % 256 == lo
    ensures asWritten && lo >= 0x80 ==> w / 256 == 0xff && w % 256 == lo
  {
    if asWritten && lo >= 0x80 then 0xff00 + lo else hi * 256 + lo
  }

  /** Word `w` of the destination after copying `data` to byte offset
   * `offset`: each half of the word that one of the bytes lands on holds
   * that byte, the other halves keep what they held. */
  function WordAfterCopy(prior: u16, data: seq<u8>, offset: nat, w: nat, asWritten: bool): (r: u16)
  {
    var hiIn := offset <= 2 * w < offset + |data|;
    var loIn := offset <= 2 * w + 1 < offset + |data|;
    var lo: u8 := if loIn then data[2 * w + 1 - offset] else prior % 256;
    var hi: u8 := if hiIn then data[2 * w - offset] else prior / 256;
    if loIn then PairWord(hi, lo, asWritten) else hi * 256 + lo
  }

  /** The whole destination after the copy. */
  function CopiedWords(words: seq<u16>, data: seq<u8>, offset: nat, asWritten: bool): (r: seq<u16>)
    ensures |r| == |words|
  {
    seq(|words|, w requires 0 <= w < |words| => WordAfterCopy(words[w], data, offset, w, asWritten))
  }

  /** Byte `b` of a big-endian word array: the high half of word `b / 2`
   * at an even offset, the low half at an odd one. */
  function ByteOf(words: seq<u16>, b: nat): (r: u8)
    requires b / 2 < |words|
  {
    if b % 2 == 0 then words[b / 2] / 256 else words[b / 2] % 256
  }

  lemma WordHalves(hi: u8, lo: u8)
    ensures (hi * 256 + lo) / 256 == hi && (hi * 256 + lo) % 256 == lo
  {
  }

  lemma WordUntouched(prior: u16, data: seq<u8>, offset: nat, w: nat, asWritten: bool)
    requires !(offset <= 2 * w < offset + |data|) && !(offset <= 2 * w + 1 < offset + |data|)
    ensures WordAfterCopy(prior, data, offset, w, asWritten) == prior
  {
  }

  lemma WordLowOnly(prior: u16, data: seq<u8>, offset: nat, w: nat, asWritten: bool)
    requires offset == 2 * w + 1 && |data| >= 1
    ensures WordAfterCopy(prior, data, offset, w, asWritten) == PairWord(prior / 256, data[0], asWritten)
  {
  }

  lemma WordPair(prior: u16, data: seq<u8>, offset: nat, w: nat, asWritten: bool)
    requires offset <= 2 * w && 2 * w + 1 < offset + |data|
    ensures WordAfterCopy(prior, data, offset, w, asWritten) == PairWord(data[2 * w - offset], data[2 * w + 1 - offset], asWritten)
  {
  }

  lemma WordHighOnly(prior: u16, data: seq<u8>, offset: nat, w: nat, asWritten: bool)
    requires offset <= 2 * w && 2 * w + 1 == offset + |data|
    ensures WordAfterCopy(prior, data, offset, w, asWritten) == data[|data| - 1] * 256 + prior % 256
  {
  }

  /** `copy_bytes_to_words`: an odd start fills the low half of its first
   * word, whole words follow, and an odd end fills the high half of its
   * last word. */
  method CopyBytesToWords(dest: array<u16>, data: seq<u8>, offset: nat, asWritten: bool)
    requires offset + |data| <= 2 * dest.Length
    modifies dest
    ensures dest[..] == CopiedWords(old(dest[..]), data, offset, asWritten)
  {
    ghost var orig := dest[..];
    if |data| == 0 {
      forall w | 0 <= w < dest.Length
        ensures WordAfterCopy(orig[w], data, offset, w, asWritten) == orig[w]
      {
        WordUntouched(orig[w], data, offset, w, asWritten);
      }
      assert dest[..] == CopiedWords(orig, data, offset, asWritten);
      return;
    }
    var skip := 0;
    if offset % 2 == 1 {
      var i := offset / 2;
      WordLowOnly(orig[i], data, offset, i, asWritten);
      dest[i] := PairWord(dest[i] / 256, data[0], asWritten);
      skip := 1;
    }
    var firstWord := (offset + skip) / 2;
    var wordsToCopy := (|data| - skip) / 2;
    assert 2 * firstWord == offset + skip;
    forall w | 0 <= w < firstWord && !(skip == 1 && w == offset / 2)
      ensures WordAfterCopy(orig[w], data, offset, w, asWritten) == orig[w]
    {
      WordUntouched(orig[w], data, offset, w, asWritten);
    }
    for i := 0 to wordsToCopy
      invariant forall w :: 0 <= w < firstWord + i ==> dest[w] == WordAfterCopy(orig[w], data, offset, w, asWritten)
      invariant forall w :: firstWord + i <= w < dest.Length ==> dest[w] == orig[w]
    {
      WordPair(orig[firstWord + i], data, offset, firstWord + i, asWritten);
      dest[firstWord + i] := PairWord(data[skip + 2 * i], data[skip + 2 * i + 1], asWritten);
    }
    var last := firstWord + wordsToCopy;
    if (|data| - skip) % 2 == 1 {
      WordHighOnly(orig[last], data, offset, last, asWritten);
      dest[last] := data[|data| - 1] as int * 256 + dest[last] % 256;
      last := last + 1;
    }
    forall w | last <= w < dest.Length
      ensures WordAfterCopy(orig[w], data, offset, w, asWritten) == orig[w]
    {
      WordUntouched(orig[w], data, offset, w, asWritten);
    }
    assert dest[..] == CopiedWords(orig, data, offset, asWritten);
  }

  /** Corrected, every byte copied reads back at its offset and every other
   * byte of the destination is as it was. */
  lemma CopyPlacesBytes(words: seq<u16>, data: seq<u8>, offset: nat)
    requires offset + |data| <= 2 * |words|
    ensures forall k :: 0 <= k < |data| ==> ByteOf(CopiedWords(words, data, offset, false), offset + k) == data[k]
    ensures forall b :: 0 <= b < 2 * |words| && !(offset <= b < offset + |data|) ==>
      ByteOf(CopiedWords(words, data, offset, false), b) == ByteOf(words, b)
  {
    var r := CopiedWords(words, data, offset, false);
    forall k | 0 <= k < |data|
      ensures ByteOf(r, offset + k) == data[k]
    {
      ByteCopied(words, data, offset, offset + k, r);
    }
    forall b | 0 <= b < 2 * |words| && !(offset <= b < offset + |data|)
      ensures ByteOf(r, b) == ByteOf(words, b)
    {
      ByteKept(words, data, offset, b, r);
    }
  }

  lemma ByteCopied(words: seq<u16>, data: seq<u8>, offset: nat, b: nat, r: seq<u16>)
    requires offset <= b < offset + |data| <= 2 * |words|
    requires r == CopiedWords(words, data, offset, false)
    ensures ByteOf(r, b) == data[b - offset]
  {
    var w := b / 2;
    var hiIn := offset <= 2 * w < offset + |data|;
    var loIn := offset <= 2 * w + 1 < offset + |data|;
    var lo: u8 := if loIn then data[2 * w + 1 - offset] else words[w] % 256;
    var hi: u8 := if hiIn then data[2 * w - offset] else words[w] / 256;
    WordHalves(hi, lo);
    assert r[w] == hi * 256 + lo;
  }

  lemma ByteKept(words: seq<u16>, data: seq<u8>, offset: nat, b: nat, r: seq<u16>)
    requires b < 2 * |words| && !(offset <= b < offset + |data|)
    requires r == CopiedWords(words, data, offset, false)
    ensures ByteOf(r, b) == ByteOf(words, b)
  {
    var w := b / 2;
    var hiIn := offset <= 2 * w < offset + |data|;
    var loIn := offset <= 2 * w + 1 < offset + |data|;
    var lo: u8 := if loIn then data[2 * w + 1 - offset] else words[w] % 256;
    var hi: u8 := if hiIn then data[2 * w - offset] else words[w] / 256;
    WordHalves(hi, lo);
    assert r[w] == hi * 256 + lo;
  }

  /** As written, a copy whose bytes are all below `0x80` is the corrected
   * copy. */
  lemma AsWrittenAgreesOnSmallBytes(words: seq<u16>, data: seq<u8>, offset: nat)
    requires forall k :: 0 <= k < |data| ==> data[k] < 0x80
    ensures CopiedWords(words, data, offset, true) == CopiedWords(words, data, offset, false)
  {
    var a := CopiedWords(words, data, offset, true);
    var c := CopiedWords(words, data, offset, false);
    forall w | 0 <= w < |words|
      ensures a[w] == c[w]
    {
      if offset <= 2 * w + 1 < offset + |data| {
        assert data[2 * w + 1 - offset] < 0x80;
      }
    }
  }

  /** The finding: as written, the bytes `12 80` copied to offset 0 make
   * the word `ff80` instead of `1280`. */
  lemma SignedCharCorruptsHighByte()
    ensures CopiedWords([0], [0x12, 0x80], 0, true) == [0xff80]
    ensures CopiedWords([0], [0x12, 0x80], 0, false) == [0x1280]
  {
    WordPair(0, [0x12, 0x80], 0, 0, true);
    WordPair(0, [0x12, 0x80], 0, 0, false);
  }

  // -------------------------------------------------------- load_ihex

  /** `load_ihex` starts its word buffer at this capacity. */
  const InitialCapacity: nat := 1024

  datatype LoadError = ReadFailed(error: IhexReader.ReadError) | UnsupportedRecordType | BufferOverrun

  /** The word buffer of `load_ihex`, a `common/stack.h` stack of words:
   * its allocation, capacity and count. */
  datatype Buffer = Buffer(slots: seq<Option<u16>>, size: nat, used: nat)

  predicate GoodBuffer(buf: Buffer)
  {
    |buf.slots| == buf.size && buf.used <= buf.size && buf.size >= InitialCapacity
  }

  /** `STACK_INIT(dataBuffer, 1024)`. */
  function InitialBuffer(): (buf: Buffer)
    ensures GoodBuffer(buf) && buf.used == 0
  {
    Buffer(CStack.Indeterminate(InitialCapacity), InitialCapacity, 0)
  }

  /** A buffer word after the copy: an initialised word as
   * `WordAfterCopy` makes it; an uninitialised one becomes initialised
   * only when the copy sets every bit of it. */
  function SlotAfterCopy(slot: Option<u16>, data: seq<u8>, offset: nat, w: nat, asWritten: bool): (r: Option<u16>)
  {
    if slot.Some? then Some(WordAfterCopy(slot.value, data, offset, w, asWritten))
    else if WordAfterCopy(0, data, offset, w, asWritten) == WordAfterCopy(0xffff, data, offset, w, asWritten) then
      Some(WordAfterCopy(0, data, offset, w, asWritten))
    else None
  }

  function CopiedSlots(slots: seq<Option<u16>>, data: seq<u8>, offset: nat, asWritten: bool): (r: seq<Option<u16>>)
    ensures |r| == |slots|
  {
    seq(|slots|, w requires 0 <= w < |slots| => SlotAfterCopy(slots[w], data, offset, w, asWritten))
  }

  /** The byte at offset `b` of the buffer, `None` while its word is
   * uninitialised. */
  function SlotByte(slots: seq<Option<u16>>, b: nat): (r: Option<u8>)
    requires b / 2 < |slots|
  {
    match slots[b / 2]
    case None => None
    case Some(w) => Some(if b % 2 == 0 then w / 256 else w % 256)
  }

  /** The count the buffer is resized to for a record of `n` bytes at
   * `address`: as written, the word after the record's end computed in 16
   * bits, which may be smaller than the count already reached; corrected,
   * at least the count already reached. */
  function RecordWordEnd(used: nat, address: u16, n: nat, asWritten: bool): (e: nat)
    ensures !asWritten ==> e >= used && 2 * e >= address + n
  {
    if asWritten then ((address + n) % 0x1_0000 + 1) / 2 else CStack.Max(used, (address + n + 1) / 2)
  }

  /** One data record: `STACK_RESIZE` to the record's end, then the copy,
   * which writes past the allocation when the resized buffer does not
   * reach the record's last byte. */
  function StoreRecord(buf: Buffer, address: u16, data: seq<u8>, asWritten: bool): (r: Result<Buffer, LoadError>)
    requires GoodBuffer(buf)
    ensures r.Ok? ==> GoodBuffer(r.value) && r.value.used == RecordWordEnd(buf.used, address, |data|, asWritten)
  {
    var newUsed := RecordWordEnd(buf.used, address, |data|, asWritten);
    var size := CStack.InflatedSize(buf.size, newUsed);
    var slots := CStack.ResizedSlots(buf.slots, buf.used, newUsed, size, asWritten, 0);
    if address + |data| > 2 * size then Err(BufferOverrun)
    else Ok(Buffer(CopiedSlots(slots, data, address, asWritten), size, newUsed))
  }

  /** The loop of `load_ihex` from `pos`: records are read until the
   * end-of-file record, whose buffer's items are the image; a record of
   * another type than data or end of file is an error, an empty data
   * record is skipped. As written the record type is OR-ed into an
   * uninitialised variable, whose value is `garbage`. */
  function LoadFrom(text: string, pos: nat, buf: Buffer, asWritten: bool, garbage: u8): (r: Result<seq<Option<u16>>, LoadError>)
    requires GoodBuffer(buf)
    decreases |text| - pos
  {
    var prior := if asWritten then garbage else 0;
    var read := IhexReader.RecordAt(text, pos, prior, asWritten);
    if read.Err? then Err(ReadFailed(read.error))
    else
      var record := read.value.0;
      var end := read.value.1;
      RecordAtAdvances(text, pos, prior, asWritten);
      if record.recordType == IhexWriter.EofRecord then Ok(buf.slots[..buf.used])
      else if record.recordType != IhexWriter.DataRecord then Err(UnsupportedRecordType)
      else if record.data == [] then LoadFrom(text, end, buf, asWritten, garbage)
      else
        var stored := StoreRecord(buf, record.address, record.data, asWritten);
        if stored.Err? then Err(stored.error)
        else LoadFrom(text, end, stored.value, asWritten, garbage)
  }

  /** Every word below the count is initialised. */
  predicate Defined(buf: Buffer)
    requires GoodBuffer(buf)
  {
    forall i :: 0 <= i < buf.used ==> buf.slots[i].Some?
  }

  /** Corrected, storing a record never writes past the allocation,
   * keeps every word below the count initialised, makes each byte of the
   * record read back at its address and leaves every other byte below the
   * old count as it was. */
  lemma StoreRecordCorrected(buf: Buffer, address: u16, data: seq<u8>)
    requires GoodBuffer(buf) && Defined(buf)
    ensures StoreRecord(buf, address, data, false).Ok?
    ensures var next := StoreRecord(buf, address, data, false).value;
      Defined(next) && 2 * next.used >= address + |data| &&
      (forall k :: 0 <= k < |data| ==> SlotByte(next.slots, address + k) == Some(data[k])) &&
      (forall b :: 0 <= b < 2 * buf.used && !(address <= b < address + |data|) ==>
        SlotByte(next.slots, b) == SlotByte(buf.slots, b))
  {
    var newUsed := RecordWordEnd(buf.used, address, |data|, false);
    var size := CStack.InflatedSize(buf.size, newUsed);
    var slots := CStack.ResizedSlots(buf.slots, buf.used, newUsed, size, false, 0);
    ResizedDefined(buf, newUsed, size, slots);
    var next := StoreRecord(buf, address, data, false).value;
    assert next.slots == CopiedSlots(slots, data, address, false);
    StoredBytes(buf, slots, address, data, next);
  }

  /** Corrected, the resized buffer is initialised up to the new count and
   * keeps the words below the old one. */
  lemma ResizedDefined(buf: Buffer, newUsed: nat, size: nat, slots: seq<Option<u16>>)
    requires GoodBuffer(buf) && Defined(buf) && buf.used <= newUsed <= size && buf.size <= size
    requires slots == CStack.ResizedSlots(buf.slots, buf.used, newUsed, size, false, 0)
    ensures |slots| == size
    ensures forall i :: 0 <= i < newUsed ==> slots[i].Some?
    ensures forall i :: 0 <= i < buf.used ==> slots[i] == buf.slots[i]
  {
    CStack.ResizedSlotsKeep(buf.slots, buf.used, newUsed, size, false, 0);
  }

  lemma StoredBytes(buf: Buffer, slots: seq<Option<u16>>, address: u16, data: seq<u8>, next: Buffer)
    requires GoodBuffer(buf) && GoodBuffer(next) && |slots| == next.size && 2 * next.used >= address + |data|
    requires buf.used <= next.used
    requires forall i :: 0 <= i < next.used ==> slots[i].Some?
    requires forall i :: 0 <= i < buf.used ==> slots[i] == buf.slots[i]
    requires next.slots == CopiedSlots(slots, data, address, false)
    ensures Defined(next)
    ensures forall k :: 0 <= k < |data| ==> SlotByte(next.slots, address + k) == Some(data[k])
    ensures forall b :: 0 <= b < 2 * buf.used && !(address <= b < address + |data|) ==>
      SlotByte(next.slots, b) == SlotByte(buf.slots, b)
  {
    forall k | 0 <= k < |data|
      ensures SlotByte(next.slots, address + k) == Some(data[k])
    {
      SlotByteCopied(slots, data, address, address + k, next.slots);
    }
    forall b | 0 <= b < 2 * buf.used && !(address <= b < address + |data|)
      ensures SlotByte(next.slots, b) == SlotByte(buf.slots, b)
    {
      SlotByteKept(slots, data, address, b, next.slots);
    }
  }

  lemma SlotByteCopied(slots: seq<Option<u16>>, data: seq<u8>, offset: nat, b: nat, r: seq<Option<u16>>)
    requires offset <= b < offset + |data| && b / 2 < |slots| && slots[b / 2].Some?
    requires r == CopiedSlots(slots, data, offset, false)
    ensures SlotByte(r, b) == Some(data[b - offset])
  {
    var w := b / 2;
    var prior := slots[w].value;
    var hiIn := offset <= 2 * w < offset + |data|;
    var loIn := offset <= 2 * w + 1 < offset + |data|;
    var lo: u8 := if loIn then data[2 * w + 1 - offset] else prior % 256;
    var hi: u8 := if hiIn then data[2 * w - offset] else prior / 256;
    WordHalves(hi, lo);
    assert r[w] == Some(hi * 256 + lo);
  }

  lemma SlotByteKept(slots: seq<Option<u16>>, data: seq<u8>, offset: nat, b: nat, r: seq<Option<u16>>)
    requires b / 2 < |slots| && slots[b / 2].Some? && !(offset <= b < offset + |data|)
    requires r == CopiedSlots(slots, data, offset, false)
    ensures SlotByte(r, b) == SlotByte(slots, b)
  {
    var w := b / 2;
    var prior := slots[w].value;
    var hiIn := offset <= 2 * w < offset + |data|;
    var loIn := offset <= 2 * w + 1 < offset + |data|;
    var lo: u8 := if loIn then data[2 * w + 1 - offset] else prior % 256;
    var hi: u8 := if hiIn then data[2 * w - offset] else prior / 256;
    WordHalves(hi, lo);
    assert r[w] == Some(hi * 256 + lo);
  }

  /** Corrected, an image that loads has no uninitialised word and never
   * writes past its buffer. */
  lemma {:induction false} LoadCorrectedDefined(text: string, pos: nat, buf: Buffer)
    requires GoodBuffer(buf) && Defined(buf)
    ensures LoadFrom(text, pos, buf, false, 0) != Err(BufferOverrun)
    ensures LoadFrom(text, pos, buf, false, 0).Ok? ==>
      forall i :: 0 <= i < |LoadFrom(text, pos, buf, false, 0).value| ==> LoadFrom(text, pos, buf, false, 0).value[i].Some?
    decreases |text| - pos
  {
    var read := IhexReader.RecordAt(text, pos, 0, false);
    if read.Ok? {
      var record := read.value.0;
      var end := read.value.1;
      RecordAtAdvances(text, pos, 0, false);
      if record.recordType == IhexWriter.DataRecord {
        if record.data == [] {
          LoadCorrectedDefined(text, end, buf);
        } else {
          StoreRecordCorrected(buf, record.address, record.data);
          LoadCorrectedDefined(text, end, StoreRecord(buf, record.address, record.data, false).value);
        }
      }
    }
  }

  /** The findings, one record at a time from a fresh buffer. A record at
   * byte 4 leaves words 0 and 1 uninitialised as written (the resize does
   * not zero them) and zero corrected. */
  lemma GapLeftUninitialised()
    ensures StoreRecord(InitialBuffer(), 4, [1, 2], true).Ok?
    ensures StoreRecord(InitialBuffer(), 4, [1, 2], true).value.slots[..2] == [None, None]
  {
    var init := InitialBuffer();
    assert CStack.InflatedSize(InitialCapacity, 3) == InitialCapacity;
    var slots := CStack.ResizedSlots(init.slots, 0, 3, InitialCapacity, true, 0);
    assert slots[0] == None && slots[1] == None;
    WordUntouched(0, [1, 2], 4, 0, true);
    WordUntouched(0xffff, [1, 2], 4, 0, true);
    WordUntouched(0, [1, 2], 4, 1, true);
    WordUntouched(0xffff, [1, 2], 4, 1, true);
  }

  lemma GapZeroedCorrected()
    ensures StoreRecord(InitialBuffer(), 4, [1, 2], false).Ok?
    ensures StoreRecord(InitialBuffer(), 4, [1, 2], false).value.slots[..2] == [Some(0), Some(0)]
  {
    var init := InitialBuffer();
    assert CStack.InflatedSize(InitialCapacity, 3) == InitialCapacity;
    CStack.ResizedSlotsKeep(init.slots, 0, 3, InitialCapacity, false, 0);
    WordUntouched(0, [1, 2], 4, 0, false);
    WordUntouched(0, [1, 2], 4, 1, false);
  }

  /** A record at byte `0x10` followed by one at byte 0: as written the
   * second resize shrinks the count from 9 words to 1 and the image loses
   * the first record; corrected it keeps 9. */
  lemma LaterRecordShrinksImage()
    ensures StoreRecord(InitialBuffer(), 0x10, [1, 2], true).Ok?
    ensures var first := StoreRecord(InitialBuffer(), 0x10, [1, 2], true).value;
      first.used == 9 && StoreRecord(first, 0, [3, 4], true).Ok? && StoreRecord(first, 0, [3, 4], true).value.used == 1
    ensures StoreRecord(InitialBuffer(), 0x10, [1, 2], false).Ok?
    ensures var first := StoreRecord(InitialBuffer(), 0x10, [1, 2], false).value;
      first.used == 9 && StoreRecord(first, 0, [3, 4], false).Ok? && StoreRecord(first, 0, [3, 4], false).value.used == 9
  {
    assert CStack.InflatedSize(InitialCapacity, 9) == InitialCapacity;
    assert CStack.InflatedSize(InitialCapacity, 1) == InitialCapacity;
  }

  /** A one-byte record at the last byte address: as written its end wraps
   * to 0 in 16 bits, the buffer is not grown and the copy writes word
   * `0x7fff` of a 1024-word allocation; corrected the buffer grows to
   * cover it. */
  lemma WrappedEndOverruns()
    ensures StoreRecord(InitialBuffer(), 0xffff, [1], true) == Err(BufferOverrun)
    ensures StoreRecord(InitialBuffer(), 0xffff, [1], false).Ok?
  {
    assert CStack.InflatedSize(InitialCapacity, 0) == InitialCapacity;
    StoreRecordCorrected(InitialBuffer(), 0xffff, [1]);
  }

  lemma {:induction false} BytesAtWithin(text: string, pos: nat, n: nat, asWritten: bool)
    requires IhexReader.BytesAt(text, pos, n, asWritten).Ok?
    ensures n > 0 ==> pos + 2 * n <= |text|
    decreases n
  {
    if n > 0 {
      assert IhexReader.BytesAt(text, pos, n - 1, asWritten).Ok?;
      var p := pos + 2 * (n - 1);
      assert IhexReader.ByteAt(text, p, asWritten).Ok?;
      assert p + 1 < |text|;
      BytesAtWithin(text, pos, n - 1, asWritten);
    }
  }

  /** A record read ends after the position it was looked for at and
   * within the text. */
  lemma RecordAtAdvances(text: string, pos: nat, prior: u8, asWritten: bool)
    ensures IhexReader.RecordAt(text, pos, prior, asWritten).Ok? ==>
      pos < IhexReader.RecordAt(text, pos, prior, asWritten).value.1 <= |text|
  {
    var colon := IhexReader.Colon(text, pos);
    if colon.Ok? {
      var c := colon.value;
      var count := IhexReader.ByteAt(text, c + 1, asWritten);
      if count.Ok? {
        var n := count.value as int + 4;
        if IhexReader.BytesAt(text, c + 3, n, asWritten).Ok? {
          BytesAtWithin(text, c + 3, n, asWritten);
        }
      }
    }
  }

  /** `load_ihex` over the text of the image file. */
  method LoadIhex(text: string, asWritten: bool, garbage: u8) returns (r: Result<seq<Option<u16>>, LoadError>)
    ensures r == LoadFrom(text, 0, InitialBuffer(), asWritten, garbage)
  {
    var dataBuffer := new CStack.Stack<u16>(InitialCapacity);
    var pos := 0;
    while true
      invariant dataBuffer.Valid() && dataBuffer.size >= InitialCapacity
      invariant LoadFrom(text, pos, Buffer(dataBuffer.slots, dataBuffer.size, dataBuffer.used), asWritten, garbage)
        == LoadFrom(text, 0, InitialBuffer(), asWritten, garbage)
      decreases |text| - pos
    {
      ghost var buf := Buffer(dataBuffer.slots, dataBuffer.size, dataBuffer.used);
      var prior := if asWritten then garbage else 0;
      var read := IhexReader.ReadRecord(text, pos, prior, asWritten);
      if read.Err? {
        return Err(ReadFailed(read.error));
      }
      var record := read.value.0;
      var end := read.value.1;
      RecordAtAdvances(text, pos, prior, asWritten);
      if record.recordType == IhexWriter.EofRecord {
        return Ok(dataBuffer.Items());
      } else if record.recordType != IhexWriter.DataRecord {
        return Err(UnsupportedRecordType);
      }
      if record.data != [] {
        var newUsed := RecordWordEnd(dataBuffer.used, record.address, |record.data|, asWritten);
        dataBuffer.Resize(newUsed, asWritten, 0);
        if record.address + |record.data| > 2 * dataBuffer.size {
          return Err(BufferOverrun);
        }
        dataBuffer.slots := CopiedSlots(dataBuffer.slots, record.data, record.address, asWritten);
        assert StoreRecord(buf, record.address, record.data, asWritten)
          == Ok(Buffer(dataBuffer.slots, dataBuffer.size, dataBuffer.used));
      }
      pos := end;
    }
  }

  // ------------------------------------------------------ the device

  /** A `struct dev_memory` and the mapping `dev_memory_init_buffer` makes
   * of it: reads come from `read_fun`, writes go to `write_fun` when the
   * memory is writable and to `no_write_fun` when it is not. */
  class DevMemory {
    const data: array<u16>
    const writable: bool

    constructor (buffer: array<u16>, isWritable: bool)
      ensures data == buffer && writable == isWritable
    {
      data := buffer;
      writable := isWritable;
    }

    /** `read_fun`: the word at `offset`. */
    method Read(offset: nat) returns (v: u16)
      requires offset < data.Length
      ensures v == data[offset]
    {
      v := data[offset];
    }

    /** `write_fun`, or `no_write_fun`, which ignores the write. */
    method Write(offset: nat, value: u16)
      requires offset < data.Length
      modifies data
      ensures writable ==> data[..] == old(data[..])[offset := value]
      ensures !writable ==> data[..] == old(data[..])
    {
      if writable {
        data[offset] := value;
      }
    }
  }

  /** A write then a read at the same offset returns the value written, or
   * the value before the write when the memory is read-only. */
  method WriteThenRead(m: DevMemory, offset: nat, value: u16) returns (v: u16)
    requires offset < m.data.Length
    modifies m.data
    ensures m.writable ==> v == value
    ensures !m.writable ==> v == old(m.data[offset])
  {
    m.Write(offset, value);
    v := m.Read(offset);
  }
}
