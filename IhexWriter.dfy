/** The C assembler's Intel HEX output: the record writer
 * (`ihex_write_record` in `assembler/ihex.c`, the same code as the write
 * half of `common/ihex.c`) and the buffered byte writer of
 * `assembler/ihex_output.c`, which gathers neighbouring bytes into data
 * records of at most 16 bytes, starts a new record whenever the next byte
 * does not follow the buffered ones, and ends the file with an end-of-file
 * record.
 *
 * The buffer is `char buffer[16]`; a byte goes in as `(word >> 8) & 0xff`
 * or `word & 0xff` and comes out as `data[i] & 0xff`, so it is modelled as
 * an unsigned byte. The file is the sequence of records written to it;
 * `RecordText` gives the characters `fprintf` puts there. */
module IhexWriter {
  import opened Wrappers
  import AsmTables
  import Image

  type u8 = x: int | 0 <= x < 0x100
  type u16 = x: int | 0 <= x < 0x1_0000

  const DataRecord: u8 := 0
  const EofRecord: u8 := 1

  /** `sizeof(state->buffer)`. */
  const BufferSize: nat := 16

  datatype HexRecord = HexRecord(address: u16, recordType: u8, data: seq<u8>)

  // ------------------------------------------------------------ records

  function Sum(bytes: seq<u8>): nat
    decreases |bytes|
  {
    if bytes == [] then 0 else Sum(bytes[..|bytes| - 1]) + bytes[|bytes| - 1]
  }

  /** `-checksum` written through `byte & 0xff`: the two's complement of the
   * byte sum, so that all the bytes add up to a multiple of 256. */
  function Checksum(bytes: seq<u8>): (c: u8)
    ensures (Sum(bytes) + c) % 256 == 0
  {
    var c := (0 - Sum(bytes)) % 256;
    ComplementMod(Sum(bytes), c);
    c
  }

  lemma ComplementMod(s: nat, c: int)
    requires c == (0 - s) % 256
    ensures (s + c) % 256 == 0
  {
    var q := (0 - s) / 256;
    assert 0 - s == q * 256 + c;
    assert s + c == (0 - q) * 256;
  }

  /** The bytes of a record after its colon: the data length (`dataSize`
   * through `& 0xff`), the address high and low byte, the record type, the
   * data, and the checksum of all of these. */
  function RecordBytes(r: HexRecord): (b: seq<u8>)
  {
    var body := [|r.data| % 256, r.address / 256, r.address % 256, r.recordType] + r.data;
    body + [Checksum(body)]
  }

  /** Every record's bytes, its checksum included, add up to a multiple of
   * 256, and its header spells the length, address and type. */
  lemma RecordChecksum(r: HexRecord)
    ensures Sum(RecordBytes(r)) % 256 == 0
    ensures |RecordBytes(r)| == |r.data| + 5
    ensures RecordBytes(r)[0] == |r.data| % 256
    ensures (RecordBytes(r)[1] as int) * 256 + RecordBytes(r)[2] as int == r.address
    ensures RecordBytes(r)[3] == r.recordType
    ensures RecordBytes(r)[4..|r.data| + 4] == r.data
  {
    var body := [|r.data| % 256, r.address / 256, r.address % 256, r.recordType] + r.data;
    var b := RecordBytes(r);
    assert b[..|b| - 1] == body;
    assert b[4..|r.data| + 4] == r.data;
  }

  /** `%02x`: two lower-case hexadecimal digits. */
  function HexDigit(d: nat): (c: char)
    requires d < 16
    ensures '0' <= c <= '9' || 'a' <= c <= 'f'
  {
    if d < 10 then '0' + d as char else 'a' + (d - 10) as char
  }

  function ByteText(b: u8): (t: string)
    ensures |t| == 2
  {
    [HexDigit(b / 16), HexDigit(b % 16)]
  }

  function BytesText(bytes: seq<u8>): (t: string)
    ensures |t| == 2 * |bytes|
    decreases |bytes|
  {
    if bytes == [] then "" else ByteText(bytes[0]) + BytesText(bytes[1..])
  }

  /** `ihex_write_record`: a colon, the record's bytes in hexadecimal, a
   * newline. */
  function RecordText(r: HexRecord): (t: string)
    ensures |t| == 2 * |r.data| + 12 && t[0] == ':' && t[|t| - 1] == '\n'
  {
    RecordChecksum(r);
    ":" + BytesText(RecordBytes(r)) + "\n"
  }

  function FileText(rs: seq<HexRecord>): string
    decreases |rs|
  {
    if rs == [] then "" else RecordText(rs[0]) + FileText(rs[1..])
  }

  /** The end-of-file record is `:00000001ff`. */
  lemma EofRecordText()
    ensures RecordText(HexRecord(0, EofRecord, [])) == ":00000001ff\n"
  {
    var body: seq<u8> := [0, 0, 0, 1];
    assert Sum(body) == 1 by {
      assert body[..3] == [0, 0, 0] && [0, 0, 0][..2] == [0, 0] && [0, 0][..1] == [0];
    }
    assert [0 % 256, 0 / 256, 0 % 256, EofRecord] + [] == body;
    assert Checksum(body) == 255;
    assert RecordBytes(HexRecord(0, EofRecord, [])) == [0, 0, 0, 1, 255];
  }

  // ------------------------------------------------------- byte writer

  /** The writer's fields: the address of the first buffered byte, the
   * buffered bytes, the records written so far, and whether the file is
   * open (`fp != NULL`). */
  datatype OutputState = OutputState(address: u16, buffer: seq<u8>, records: seq<HexRecord>, isOpen: bool)

  /** A byte placed at an address. */
  type Cell = (nat, u8)

  function RecordPlaced(r: HexRecord): (p: seq<Cell>)
    ensures |p| == |r.data|
  {
    seq(|r.data|, i requires 0 <= i < |r.data| => (r.address + i, r.data[i]))
  }

  /** The bytes the data records of a file place, in file order. */
  function RecordsPlaced(rs: seq<HexRecord>): seq<Cell>
    decreases |rs|
  {
    if rs == [] then []
    else
      var last := rs[|rs| - 1];
      RecordsPlaced(rs[..|rs| - 1]) + (if last.recordType == DataRecord then RecordPlaced(last) else [])
  }

  /** What the writer has been given: the written records' bytes, then the
   * buffered ones. */
  function Given(s: OutputState): seq<Cell>
  {
    RecordsPlaced(s.records) + RecordPlaced(HexRecord(s.address, DataRecord, s.buffer))
  }

  function Pairs(ws: seq<AsmTables.ByteWrite>): (p: seq<Cell>)
    ensures |p| == |ws|
  {
    seq(|ws|, i requires 0 <= i < |ws| => (ws[i].address, ws[i].value))
  }

  /** A record as the writer produces it: data of 1 to 16 bytes that do not
   * run past address 0xffff. */
  predicate GoodRecord(r: HexRecord)
  {
    r.recordType == DataRecord && 0 < |r.data| <= BufferSize && r.address + |r.data| <= 0x1_0000
  }

  /** The buffer is never left full, the buffered bytes' addresses are
   * 16-bit, and every record written is a good data record. */
  predicate Valid(s: OutputState)
  {
    |s.buffer| < BufferSize && s.address + |s.buffer| <= 0x1_0000 &&
    forall k :: 0 <= k < |s.records| ==> GoodRecord(s.records[k])
  }

  /** `ihex_output_open`, once the file is open. */
  const Opened: OutputState := OutputState(0, [], [], true)

  /** `flush`: a non-empty buffer becomes one data record at the buffer's
   * address, the address moves past it (16-bit) and the buffer empties. */
  function Flushed(s: OutputState): (t: OutputState)
  {
    if |s.buffer| == 0 then s
    else OutputState((s.address + |s.buffer|) % 0x1_0000, [], s.records + [HexRecord(s.address, DataRecord, s.buffer)], s.isOpen)
  }

  /** `ihex_output_byte`: a byte that does not follow the buffered ones (the
   * comparison is made in `int`, so it does not wrap) flushes the buffer
   * and moves the address to it; the byte is buffered, and a full buffer
   * is flushed. */
  function ByteOutput(s: OutputState, address: u16, b: u8): (t: OutputState)
  {
    var s1 := if address != s.address + |s.buffer| then Flushed(s).(address := address) else s;
    var s2 := s1.(buffer := s1.buffer + [b]);
    if |s2.buffer| == BufferSize then Flushed(s2) else s2
  }

  /** `ihex_output_close`: on an open file, flush and write the end-of-file
   * record; a closed file is left alone. */
  function Closed(s: OutputState): (t: OutputState)
  {
    if !s.isOpen then s
    else
      var f := Flushed(s);
      f.(records := f.records + [HexRecord(0, EofRecord, [])], isOpen := false)
  }

  lemma RecordsPlacedAppend(rs: seq<HexRecord>, r: HexRecord)
    ensures RecordsPlaced(rs + [r]) ==
      RecordsPlaced(rs) + (if r.recordType == DataRecord then RecordPlaced(r) else [])
  {
    assert (rs + [r])[..|rs|] == rs;
  }

  /** A flush changes nothing the writer has been given. */
  lemma FlushKeeps(s: OutputState)
    requires Valid(s)
    ensures Given(Flushed(s)) == Given(s)
    ensures |s.buffer| > 0 ==> GoodRecord(HexRecord(s.address, DataRecord, s.buffer))
    ensures Flushed(s).isOpen == s.isOpen
  {
    if |s.buffer| > 0 {
      var r := HexRecord(s.address, DataRecord, s.buffer);
      RecordsPlacedAppend(s.records, r);
      assert RecordPlaced(HexRecord(Flushed(s).address, DataRecord, [])) == [];
    }
  }

  /** One byte given to the writer is one byte more placed, the state stays
   * valid and the file stays open. */
  lemma ByteOutputPlaces(s: OutputState, address: u16, b: u8)
    requires Valid(s)
    ensures Valid(ByteOutput(s, address, b))
    ensures Given(ByteOutput(s, address, b)) == Given(s) + [(address, b)]
    ensures ByteOutput(s, address, b).isOpen == s.isOpen
    ensures ByteOutput(s, address, b).records[..|s.records|] == s.records
  {
    FlushKeeps(s);
    var s1 := if address != s.address + |s.buffer| then Flushed(s).(address := address) else s;
    if address != s.address + |s.buffer| {
      assert RecordPlaced(HexRecord(s1.address, DataRecord, s1.buffer)) == [];
      assert Given(s1) == Given(Flushed(s));
    }
    assert s1.address + |s1.buffer| == address && Valid(s1) && Given(s1) == Given(s);
    assert s1.records[..|s.records|] == s.records;
    var s2 := s1.(buffer := s1.buffer + [b]);
    BufferAppend(s1, b, s2);
    if |s2.buffer| == BufferSize {
      FlushFull(s2);
    }
  }

  lemma BufferAppend(s1: OutputState, b: u8, s2: OutputState)
    requires Valid(s1) && s1.address + |s1.buffer| < 0x1_0000
    requires s2 == s1.(buffer := s1.buffer + [b])
    ensures Given(s2) == Given(s1) + [(s1.address + |s1.buffer|, b)]
  {
    var p1 := RecordPlaced(HexRecord(s1.address, DataRecord, s1.buffer));
    var p2 := RecordPlaced(HexRecord(s2.address, DataRecord, s2.buffer));
    assert p2 == p1 + [(s1.address + |s1.buffer|, b)];
  }

  lemma FlushFull(s2: OutputState)
    requires |s2.buffer| == BufferSize && s2.address + |s2.buffer| <= 0x1_0000
    requires forall k :: 0 <= k < |s2.records| ==> GoodRecord(s2.records[k])
    ensures Valid(Flushed(s2)) && Given(Flushed(s2)) == Given(s2)
    ensures Flushed(s2).records[..|s2.records|] == s2.records
  {
    var r := HexRecord(s2.address, DataRecord, s2.buffer);
    RecordsPlacedAppend(s2.records, r);
    assert RecordPlaced(HexRecord(Flushed(s2).address, DataRecord, [])) == [];
    assert Flushed(s2).records[..|s2.records|] == s2.records;
  }

  /** The writer state after the given bytes, from a freshly opened file. */
  function WriteAll(ws: seq<AsmTables.ByteWrite>): OutputState
    decreases |ws|
  {
    if ws == [] then Opened
    else
      var last := ws[|ws| - 1];
      ByteOutput(WriteAll(ws[..|ws| - 1]), last.address, last.value)
  }

  lemma WriteAllStep(ws: seq<AsmTables.ByteWrite>, init: seq<AsmTables.ByteWrite>, last: AsmTables.ByteWrite)
    requires |ws| > 0 && init == ws[..|ws| - 1] && last == ws[|ws| - 1]
    ensures WriteAll(ws) == ByteOutput(WriteAll(init), last.address, last.value)
    ensures Pairs(ws) == Pairs(init) + [(last.address, last.value)]
  {
  }

  /** Everything the assembler writes: the bytes, then the close. */
  function Output(ws: seq<AsmTables.ByteWrite>): seq<HexRecord>
  {
    Closed(WriteAll(ws)).records
  }

  lemma {:induction false} WriteAllPlaces(ws: seq<AsmTables.ByteWrite>)
    ensures Valid(WriteAll(ws)) && WriteAll(ws).isOpen
    ensures Given(WriteAll(ws)) == Pairs(ws)
    decreases |ws|
  {
    if ws == [] {
      assert Given(Opened) == [];
    } else {
      var init, last := ws[..|ws| - 1], ws[|ws| - 1];
      WriteAllPlaces(init);
      WriteAllStep(ws, init, last);
      ByteOutputPlaces(WriteAll(init), last.address, last.value);
    }
  }

  /** The file the writer leaves holds good data records placing exactly
   * the bytes it was given, in order, and then the end-of-file record. */
  lemma OutputRoundTrip(ws: seq<AsmTables.ByteWrite>)
    ensures |Output(ws)| > 0 && Output(ws)[|Output(ws)| - 1] == HexRecord(0, EofRecord, [])
    ensures forall k :: 0 <= k < |Output(ws)| - 1 ==> GoodRecord(Output(ws)[k])
    ensures RecordsPlaced(Output(ws)) == Pairs(ws)
  {
    WriteAllPlaces(ws);
    var s := WriteAll(ws);
    FlushKeeps(s);
    var f := Flushed(s);
    assert Valid(f) by {
      if |s.buffer| > 0 {
        assert f.records == s.records + [HexRecord(s.address, DataRecord, s.buffer)];
      }
    }
    RecordsPlacedAppend(f.records, HexRecord(0, EofRecord, []));
    assert RecordPlaced(HexRecord(f.address, DataRecord, f.buffer)) == [];
  }

  // ----------------------------------------------------- the word pairs

  /** The assembler's bytes: pairs at an even address and the odd one after
   * it (`assembler_output_word`). */
  predicate WordPairs(ws: seq<AsmTables.ByteWrite>)
  {
    |ws| % 2 == 0 &&
    forall k :: 0 <= k < |ws| / 2 ==> ws[2 * k].address % 2 == 0 && ws[2 * k + 1].address == ws[2 * k].address + 1
  }

  /** The record and address invariant word pairs keep. */
  predicate EvenState(s: OutputState)
  {
    s.address % 2 == 0 && |s.buffer| % 2 == 0 &&
    forall k :: 0 <= k < |s.records| ==> s.records[k].address % 2 == 0 && |s.records[k].data| % 2 == 0
  }

  lemma FlushEven(s: OutputState)
    requires EvenState(s)
    ensures EvenState(Flushed(s))
  {
    if |s.buffer| > 0 {
      var t := Flushed(s);
      assert t.records == s.records + [HexRecord(s.address, DataRecord, s.buffer)];
      EvenSumMod(s.address, |s.buffer|);
    }
  }

  lemma EvenSumMod(a: nat, n: nat)
    requires a % 2 == 0 && n % 2 == 0
    ensures ((a + n) % 0x1_0000) % 2 == 0
  {
  }

  /** A pair written to a writer in the even state leaves it in the even
   * state. */
  lemma PairEven(s: OutputState, a: u16, hi: u8, lo: u8, b: u16)
    requires Valid(s) && EvenState(s) && a % 2 == 0 && b == a + 1
    ensures EvenState(ByteOutput(ByteOutput(s, a, hi), b, lo))
  {
    var s1 := if a != s.address + |s.buffer| then Flushed(s).(address := a) else s;
    FlushEven(s);
    assert EvenState(s1);
    var t := ByteOutput(s, a, hi);
    assert t == s1.(buffer := s1.buffer + [hi]);
    assert t.address + |t.buffer| == b;
    var u := t.(buffer := t.buffer + [lo]);
    assert ByteOutput(t, b, lo) == if |u.buffer| == BufferSize then Flushed(u) else u;
    assert EvenState(u);
    FlushEven(u);
  }

  lemma WordPairsInit(ws: seq<AsmTables.ByteWrite>, init: seq<AsmTables.ByteWrite>)
    requires WordPairs(ws) && |ws| > 0 && init == ws[..|ws| - 2]
    ensures WordPairs(init)
    ensures ws[|ws| - 2].address % 2 == 0 && ws[|ws| - 1].address == ws[|ws| - 2].address + 1
  {
    forall k | 0 <= k < |init| / 2
      ensures init[2 * k].address % 2 == 0 && init[2 * k + 1].address == init[2 * k].address + 1
    {
      assert init[2 * k] == ws[2 * k] && init[2 * k + 1] == ws[2 * k + 1];
    }
    var n := |ws|;
    assert ws[n - 2] == ws[2 * ((n - 2) / 2)];
  }

  lemma {:induction false} WriteAllEven(ws: seq<AsmTables.ByteWrite>)
    requires WordPairs(ws)
    ensures EvenState(WriteAll(ws))
    decreases |ws|
  {
    if ws != [] {
      var n := |ws|;
      var init, mid := ws[..n - 2], ws[..n - 1];
      WordPairsInit(ws, init);
      WriteAllEven(init);
      WriteAllPlaces(init);
      assert mid[..n - 2] == init;
      WriteAllStep(mid, init, ws[n - 2]);
      WriteAllStep(ws, mid, ws[n - 1]);
      PairEven(WriteAll(init), ws[n - 2].address, ws[n - 2].value, ws[n - 1].value, ws[n - 1].address);
    }
  }

  // ------------------------------------------------- reading it back in

  /** The records as the `ihex` crate parses them. */
  function ToImage(r: HexRecord): Image.Record
  {
    if r.recordType == EofRecord then Image.EndOfFile
    else if r.recordType == DataRecord then Image.Data(r.address, r.data)
    else Image.ExtendedSegmentAddress(0)
  }

  function ToImageAll(rs: seq<HexRecord>): (ir: seq<Image.Record>)
    ensures |ir| == |rs| && forall k :: 0 <= k < |rs| ==> ir[k] == ToImage(rs[k])
  {
    seq(|rs|, k requires 0 <= k < |rs| => ToImage(rs[k]))
  }

  function SegmentOf(r: HexRecord): Image.U8Segment
  {
    Image.U8Segment(r.address, r.data)
  }

  function SegmentsPlaced(segs: seq<Image.U8Segment>): seq<Cell>
    decreases |segs|
  {
    if segs == [] then []
    else
      var s := segs[|segs| - 1];
      SegmentsPlaced(segs[..|segs| - 1]) + seq(|s.data|, i requires 0 <= i < |s.data| => (s.offset + i, s.data[i]))
  }

  /** Good, even data records followed by the end-of-file record are
   * collected into one segment each, in order. */
  lemma {:induction false} CollectRecords(rs: seq<HexRecord>, tail: seq<HexRecord>)
    requires forall k :: 0 <= k < |rs| ==> GoodRecord(rs[k]) && rs[k].address % 2 == 0 && |rs[k].data| % 2 == 0
    requires |tail| > 0 && tail[0] == HexRecord(0, EofRecord, [])
    ensures Image.Collect(ToImageAll(rs + tail), 0) ==
      Ok(seq(|rs|, k requires 0 <= k < |rs| => SegmentOf(rs[k])))
    decreases |rs|
  {
    var all := ToImageAll(rs + tail);
    if rs == [] {
      assert all[0] == Image.EndOfFile;
    } else {
      CollectRecords(rs[1..], tail);
      assert rs + tail == [rs[0]] + (rs[1..] + tail);
      assert all[1..] == ToImageAll(rs[1..] + tail);
      assert all[0] == Image.Data(rs[0].address, rs[0].data);
      var rest := seq(|rs| - 1, k requires 0 <= k < |rs| - 1 => SegmentOf(rs[1..][k]));
      assert seq(|rs|, k requires 0 <= k < |rs| => SegmentOf(rs[k])) == [SegmentOf(rs[0])] + rest;
    }
  }

  lemma {:induction false} SegmentsPlacedRecords(rs: seq<HexRecord>)
    requires forall k :: 0 <= k < |rs| ==> rs[k].recordType == DataRecord
    ensures SegmentsPlaced(seq(|rs|, k requires 0 <= k < |rs| => SegmentOf(rs[k]))) == RecordsPlaced(rs)
    decreases |rs|
  {
    if rs != [] {
      var init := rs[..|rs| - 1];
      SegmentsPlacedRecords(init);
      var segs := seq(|rs|, k requires 0 <= k < |rs| => SegmentOf(rs[k]));
      assert segs[..|rs| - 1] == seq(|init|, k requires 0 <= k < |init| => SegmentOf(init[k]));
    }
  }

  /** The assembler's output read back by the emulator toolchain's loader:
   * every record is accepted, and the segments collected place exactly the
   * bytes the assembler wrote, in order. */
  lemma WriterToCollect(ws: seq<AsmTables.ByteWrite>)
    requires WordPairs(ws)
    ensures Image.Collect(ToImageAll(Output(ws)), 0).Ok?
    ensures SegmentsPlaced(Image.Collect(ToImageAll(Output(ws)), 0).value) == Pairs(ws)
  {
    OutputRoundTrip(ws);
    WriteAllEven(ws);
    var s := WriteAll(ws);
    FlushEven(s);
    var out := Output(ws);
    var n := |out| - 1;
    var rs, tail := out[..n], out[n..];
    assert out == rs + tail;
    assert forall k :: 0 <= k < |rs| ==> rs[k] == Flushed(s).records[k];
    CollectRecords(rs, tail);
    SegmentsPlacedRecords(rs);
    RecordsPlacedAppend(rs, out[n]);
  }

  // ---------------------------------------------------- the writer object

  /** `struct ihex_output` with `ihex_output_open`, `ihex_output_byte` and
   * `ihex_output_close`. */
  class HexOutput {
    var address: u16
    const buffer: array<u8>
    var bufferUsed: nat
    var records: seq<HexRecord>
    var isOpen: bool

    predicate Inv()
      reads this, buffer
    {
      buffer.Length == BufferSize && bufferUsed <= BufferSize
    }

    function State(): OutputState
      reads this, buffer
      requires Inv()
    {
      OutputState(address, buffer[..bufferUsed], records, isOpen)
    }

    /** `ihex_output_open` on a file that opens. */
    constructor ()
      ensures Inv() && State() == Opened && fresh(buffer)
    {
      address := 0;
      bufferUsed := 0;
      records := [];
      isOpen := true;
      buffer := new u8[BufferSize](_ => 0);
    }

    method Flush()
      requires Inv()
      modifies this
      ensures Inv() && State() == Flushed(old(State()))
      ensures unchanged(buffer)
    {
      if bufferUsed == 0 {
        return;
      }
      records := records + [HexRecord(address, DataRecord, buffer[..bufferUsed])];
      address := (address + bufferUsed) % 0x1_0000;
      bufferUsed := 0;
    }

    method OutputByte(a: u16, b: u8)
      requires Inv() && Valid(State())
      modifies this, buffer
      ensures Inv() && State() == ByteOutput(old(State()), a, b)
    {
      ghost var s0 := State();
      if a != address + bufferUsed {
        Flush();
        address := a;
      }
      ghost var s1 := State();
      assert s1 == if a != s0.address + |s0.buffer| then Flushed(s0).(address := a) else s0;
      buffer[bufferUsed] := b;
      bufferUsed := bufferUsed + 1;
      assert buffer[..bufferUsed] == s1.buffer + [b];
      assert State() == s1.(buffer := s1.buffer + [b]);
      if bufferUsed == BufferSize {
        Flush();
      }
    }

    method Close()
      requires Inv()
      modifies this
      ensures Inv() && State() == Closed(old(State()))
    {
      if !isOpen {
        return;
      }
      Flush();
      records := records + [HexRecord(0, EofRecord, [])];
      isOpen := false;
    }
  }
}
