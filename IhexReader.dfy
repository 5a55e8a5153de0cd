/** The emulator's Intel HEX record reader (`read_byte` and
 * `ihex_read_record` in `common/ihex.c`): skip to the next colon, read the
 * byte count, the big-endian address, the record type, the data bytes and
 * the checksum as pairs of hexadecimal digits, and reject the record unless
 * every byte read adds up to a multiple of 256.
 *
 * The file is the text and a position in it; reaching its end reads as the
 * C `EOF`. As written, the digits `a`-`f` and `A`-`F` are worth 0 to 5
 * instead of 10 to 15; `asWritten` selects that reading, and the corrected
 * one is the inverse of the record writer. */
module IhexReader {
  import opened Wrappers
  import Arith
  import IhexWriter

  type u8 = IhexWriter.u8

  datatype ReadError = UnexpectedEndOfFile | UnexpectedCharacter | InvalidChecksum

  /** The value of one hexadecimal digit, `None` for any other character. */
  function HexValue(c: char, asWritten: bool): (v: Option<nat>)
    ensures v.Some? ==> v.value < 16
  {
    if '0' <= c <= '9' then Some(c as nat - '0' as nat)
    else if 'a' <= c <= 'f' then Some(c as nat - 'a' as nat + if asWritten then 0 else 10)
    else if 'A' <= c <= 'F' then Some(c as nat - 'A' as nat + if asWritten then 0 else 10)
    else None
  }

  /** Exactly the hexadecimal digits, of either case, have a value. */
  lemma HexValueDigits(c: char, asWritten: bool)
    ensures HexValue(c, asWritten).Some? <==> '0' <= c <= '9' || 'a' <= c <= 'f' || 'A' <= c <= 'F'
  {
  }

  /** Corrected, the value of a digit the writer prints is the digit's
   * value; as written, it is that only for `0`-`9`. */
  lemma HexDigitValue(d: nat)
    requires d < 16
    ensures HexValue(IhexWriter.HexDigit(d), false) == Some(d)
    ensures HexValue(IhexWriter.HexDigit(d), true) == Some(if d < 10 then d else d - 10)
  {
  }

  /** `read_byte`: two digits at `pos`, high one first. */
  function ByteAt(text: string, pos: nat, asWritten: bool): (r: Result<u8, ReadError>)
    ensures r.Err? ==> r.error == UnexpectedCharacter
  {
    if pos + 1 < |text| && HexValue(text[pos], asWritten).Some? && HexValue(text[pos + 1], asWritten).Some? then
      Ok(HexValue(text[pos], asWritten).value * 16 + HexValue(text[pos + 1], asWritten).value)
    else Err(UnexpectedCharacter)
  }

  /** `n` bytes read one after the other from `pos`. */
  function BytesAt(text: string, pos: nat, n: nat, asWritten: bool): (r: Result<seq<u8>, ReadError>)
    ensures r.Ok? ==> |r.value| == n
    decreases n
  {
    if n == 0 then Ok([])
    else
      var init := BytesAt(text, pos, n - 1, asWritten);
      if init.Err? then init
      else
        var b := ByteAt(text, pos + 2 * (n - 1), asWritten);
        if b.Err? then Err(b.error) else Ok(init.value + [b.value])
  }

  /** The first colon at or after `pos`: the skip loop of
   * `ihex_read_record`. */
  function Colon(text: string, pos: nat): (r: Result<nat, ReadError>)
    ensures r.Ok? ==>
      pos <= r.value < |text| && text[r.value] == ':' && forall i :: pos <= i < r.value ==> text[i] != ':'
    ensures r.Err? ==> r.error == UnexpectedEndOfFile && forall i :: pos <= i < |text| ==> text[i] != ':'
    decreases |text| - pos
  {
    if pos >= |text| then Err(UnexpectedEndOfFile)
    else if text[pos] == ':' then Ok(pos)
    else Colon(text, pos + 1)
  }

  /** `*recordType |= b`. */
  function Or(a: u8, b: u8): (r: u8)
    ensures a == 0 ==> r == b
    ensures b == 0 ==> r == a
  {
    OrBits(a, b, 8)
  }

  /** The bitwise OR of the low `n` bits of `a` and `b`. */
  function OrBits(a: nat, b: nat, n: nat): (r: nat)
    ensures r < Arith.Pow2(n)
    ensures a == 0 && b < Arith.Pow2(n) ==> r == b
    ensures b == 0 && a < Arith.Pow2(n) ==> r == a
  {
    if n == 0 then 0
    else 2 * OrBits(a / 2, b / 2, n - 1) + if a % 2 == 1 || b % 2 == 1 then 1 else 0
  }

  /** The record at the next colon after `pos` and the position just past
   * its checksum. `prior` is what the caller's record type held before the
   * call, since the type is OR-ed into it. */
  function RecordAt(text: string, pos: nat, prior: u8, asWritten: bool): (r: Result<(IhexWriter.HexRecord, nat), ReadError>)
  {
    var colon := Colon(text, pos);
    if colon.Err? then Err(colon.error) else RecordAfterColon(text, colon.value, prior, asWritten)
  }

  /** The byte count, then that many data bytes with the four header and
   * checksum bytes around them. */
  function RecordAfterColon(text: string, c: nat, prior: u8, asWritten: bool): (r: Result<(IhexWriter.HexRecord, nat), ReadError>)
  {
    var count := ByteAt(text, c + 1, asWritten);
    if count.Err? then Err(count.error)
    else RecordFields(count.value, BytesAt(text, c + 3, count.value as int + 4, asWritten), c, prior)
  }

  /** The checksum test and the record the bytes read make. */
  function RecordFields(count: u8, rest: Result<seq<u8>, ReadError>, c: nat, prior: u8): (r: Result<(IhexWriter.HexRecord, nat), ReadError>)
    requires rest.Ok? ==> |rest.value| == count as int + 4
  {
    if rest.Err? then Err(rest.error)
    else if IhexWriter.Sum([count] + rest.value) % 256 != 0 then Err(InvalidChecksum)
    else
      var bs := rest.value;
      var address := bs[0] as int * 256 + bs[1] as int;
      Ok((IhexWriter.HexRecord(address, Or(prior, bs[2]), bs[3..count as int + 3]), c + 3 + 2 * (count as int + 4)))
  }

  // --------------------------------------------------------- round trip

  lemma {:induction false} BytesTextDigits(bs: seq<u8>, i: nat)
    requires i < |bs|
    ensures IhexWriter.BytesText(bs)[2 * i] == IhexWriter.HexDigit(bs[i] / 16)
    ensures IhexWriter.BytesText(bs)[2 * i + 1] == IhexWriter.HexDigit(bs[i] % 16)
    decreases i
  {
    if i > 0 {
      BytesTextDigits(bs[1..], i - 1);
    }
  }

  /** Each pair of digits the writer prints reads back as its byte. */
  lemma ByteAtText(text: string, pos: nat, bs: seq<u8>, i: nat)
    requires pos + 2 * |bs| <= |text| && text[pos..pos + 2 * |bs|] == IhexWriter.BytesText(bs)
    requires i < |bs|
    ensures ByteAt(text, pos + 2 * i, false) == Ok(bs[i])
  {
    BytesTextDigits(bs, i);
    assert text[pos + 2 * i] == text[pos..pos + 2 * |bs|][2 * i];
    assert text[pos + 2 * i + 1] == text[pos..pos + 2 * |bs|][2 * i + 1];
    HexDigitValue(bs[i] / 16);
    HexDigitValue(bs[i] % 16);
  }

  lemma BytesAtStep(text: string, pos: nat, n: nat, asWritten: bool, init: seq<u8>, b: u8, bs: seq<u8>)
    requires n > 0 && BytesAt(text, pos, n - 1, asWritten) == Ok(init)
    requires ByteAt(text, pos + 2 * (n - 1), asWritten) == Ok(b) && bs == init + [b]
    ensures BytesAt(text, pos, n, asWritten) == Ok(bs)
  {
  }

  /** Text that spells some bytes reads back as those bytes. */
  lemma {:induction false} BytesAtText(text: string, pos: nat, bs: seq<u8>, n: nat)
    requires pos + 2 * |bs| <= |text| && text[pos..pos + 2 * |bs|] == IhexWriter.BytesText(bs)
    requires n <= |bs|
    ensures BytesAt(text, pos, n, false) == Ok(bs[..n])
    decreases n
  {
    if n > 0 {
      BytesAtText(text, pos, bs, n - 1);
      ByteAtText(text, pos, bs, n - 1);
      assert bs[..n] == bs[..n - 1] + [bs[n - 1]];
      BytesAtStep(text, pos, n, false, bs[..n - 1], bs[n - 1], bs[..n]);
    }
  }

  /** The record read when every byte reads and the checksum holds. */
  lemma RecordAtOk(text: string, pos: nat, prior: u8, asWritten: bool, c: nat, count: u8, bs: seq<u8>, record: IhexWriter.HexRecord, end: nat)
    requires Colon(text, pos) == Ok(c) && ByteAt(text, c + 1, asWritten) == Ok(count)
    requires BytesAt(text, c + 3, count as int + 4, asWritten) == Ok(bs)
    requires IhexWriter.Sum([count] + bs) % 256 == 0
    requires |bs| == count as int + 4
    requires record == IhexWriter.HexRecord(bs[0] as int * 256 + bs[1] as int, Or(prior, bs[2]), bs[3..count as int + 3])
    requires end == c + 3 + 2 * (count as int + 4)
    ensures RecordAt(text, pos, prior, asWritten) == Ok((record, end))
  {
    RecordAtColon(text, pos, prior, asWritten, c);
    RecordAfterColonFields(text, c, prior, asWritten, count, Ok(bs));
    RecordFieldsOk(count, bs, c, prior);
  }

  lemma RecordAtColon(text: string, pos: nat, prior: u8, asWritten: bool, c: nat)
    requires Colon(text, pos) == Ok(c)
    ensures RecordAt(text, pos, prior, asWritten) == RecordAfterColon(text, c, prior, asWritten)
  {
  }

  lemma RecordAfterColonFields(text: string, c: nat, prior: u8, asWritten: bool, count: u8, rest: Result<seq<u8>, ReadError>)
    requires ByteAt(text, c + 1, asWritten) == Ok(count)
    requires BytesAt(text, c + 3, count as int + 4, asWritten) == rest
    ensures rest.Ok? ==> |rest.value| == count as int + 4
    ensures RecordAfterColon(text, c, prior, asWritten) == RecordFields(count, rest, c, prior)
  {
  }

  lemma RecordFieldsOk(count: u8, bs: seq<u8>, c: nat, prior: u8)
    requires |bs| == count as int + 4
    requires IhexWriter.Sum([count] + bs) % 256 == 0
    ensures RecordFields(count, Ok(bs), c, prior) ==
      Ok((IhexWriter.HexRecord(bs[0] as int * 256 + bs[1] as int, Or(prior, bs[2]), bs[3..count as int + 3]), c + 3 + 2 * (count as int + 4)))
  {
  }

  /** The record's text, after its colon, spells its bytes. */
  lemma RecordTextBytes(r: IhexWriter.HexRecord, rest: string, text: string, bs: seq<u8>)
    requires text == IhexWriter.RecordText(r) + rest && bs == IhexWriter.RecordBytes(r)
    ensures |text| > 2 * |bs| && text[1..1 + 2 * |bs|] == IhexWriter.BytesText(bs)
    ensures Colon(text, 0) == Ok(0) && |bs| == |r.data| + 5
  {
    IhexWriter.RecordChecksum(r);
    var t := IhexWriter.BytesText(bs);
    TextAround(text, t, IhexWriter.RecordText(r), rest);
  }

  lemma TextAround(text: string, t: string, line: string, rest: string)
    requires line == ":" + t + "\n" && text == line + rest
    ensures |text| > |t| + 1 && text[1..1 + |t|] == t && Colon(text, 0) == Ok(0)
  {
    assert text == ":" + t + "\n" + rest;
    assert text[1..1 + |t|] == t;
  }

  /** A record the writer prints, followed by anything, reads back as that
   * record (when its data fits the one-byte count and the caller's type
   * variable starts at zero), and the reader stops right after it. */
  lemma ReadWriteRoundTrip(r: IhexWriter.HexRecord, rest: string)
    requires |r.data| < 256
    ensures RecordAt(IhexWriter.RecordText(r) + rest, 0, 0, false) == Ok((r, |IhexWriter.RecordText(r)| - 1))
  {
    var text := IhexWriter.RecordText(r) + rest;
    var bs := IhexWriter.RecordBytes(r);
    RecordTextBytes(r, rest, text, bs);
    var tail := bs[1..];
    var count := bs[0];
    RoundTripFields(r, bs, tail, count);
    ReadBody(text, bs, tail, count);
    ReadPrinted(text, tail, count, r, |IhexWriter.RecordText(r)| - 1);
  }

  /** Text that spells a count and the bytes after it reads as both. */
  lemma ReadBody(text: string, bs: seq<u8>, tail: seq<u8>, count: u8)
    requires |bs| > 0 && count == bs[0] && tail == bs[1..] && |tail| == count as int + 4
    requires |text| > 2 * |bs| && text[1..1 + 2 * |bs|] == IhexWriter.BytesText(bs)
    ensures ByteAt(text, 1, false) == Ok(count)
    ensures BytesAt(text, 3, count as int + 4, false) == Ok(tail)
  {
    ReadCount(text, bs, count);
    ReadTail(text, bs, tail, count as int + 4);
  }

  /** Text whose first colon is at 0 and which then spells a count, the
   * bytes after it and a checksum that holds, reads as the record those
   * bytes make. */
  lemma ReadPrinted(text: string, tail: seq<u8>, count: u8, rec: IhexWriter.HexRecord, end: nat)
    requires Colon(text, 0) == Ok(0) && ByteAt(text, 1, false) == Ok(count)
    requires BytesAt(text, 3, count as int + 4, false) == Ok(tail)
    requires IhexWriter.Sum([count] + tail) % 256 == 0
    requires rec == IhexWriter.HexRecord(tail[0] as int * 256 + tail[1] as int, Or(0, tail[2]), tail[3..count as int + 3])
    requires end == 0 + 3 + 2 * (count as int + 4)
    ensures RecordAt(text, 0, 0, false) == Ok((rec, end))
  {
    RecordAtOk(text, 0, 0, false, 0, count, tail, rec, end);
  }

  /** The fields the reader makes of a printed record's bytes are the
   * record's. */
  lemma RoundTripFields(r: IhexWriter.HexRecord, bs: seq<u8>, tail: seq<u8>, count: u8)
    requires |r.data| < 256 && bs == IhexWriter.RecordBytes(r) && |bs| > 0 && tail == bs[1..] && count == bs[0]
    ensures count as int + 4 == |tail| && IhexWriter.Sum([count] + tail) % 256 == 0
    ensures IhexWriter.HexRecord(tail[0] as int * 256 + tail[1] as int, Or(0, tail[2]), tail[3..count as int + 3]) == r
    ensures 0 + 3 + 2 * (count as int + 4) == |IhexWriter.RecordText(r)| - 1
  {
    IhexWriter.RecordChecksum(r);
    assert [count] + tail == bs;
    assert tail[3..|r.data| + 3] == bs[4..|r.data| + 4];
  }

  lemma TailText(text: string, bs: seq<u8>, tail: seq<u8>)
    requires |bs| > 0 && tail == bs[1..]
    requires |text| > 2 * |bs| && text[1..1 + 2 * |bs|] == IhexWriter.BytesText(bs)
    ensures text[3..3 + 2 * |tail|] == IhexWriter.BytesText(tail)
  {
    assert IhexWriter.BytesText(bs) == IhexWriter.ByteText(bs[0]) + IhexWriter.BytesText(tail);
    assert text[3..3 + 2 * |tail|] == text[1..1 + 2 * |bs|][2..];
  }

  lemma ReadCount(text: string, bs: seq<u8>, count: u8)
    requires |bs| > 0 && count == bs[0]
    requires |text| > 2 * |bs| && text[1..1 + 2 * |bs|] == IhexWriter.BytesText(bs)
    ensures ByteAt(text, 1, false) == Ok(count)
  {
    ByteAtText(text, 1, bs, 0);
  }

  lemma ReadTail(text: string, bs: seq<u8>, tail: seq<u8>, n: nat)
    requires |bs| > 0 && tail == bs[1..] && n == |tail|
    requires |text| > 2 * |bs| && text[1..1 + 2 * |bs|] == IhexWriter.BytesText(bs)
    ensures BytesAt(text, 3, n, false) == Ok(tail)
  {
    TailText(text, bs, tail);
    BytesAtWhole(text, 3, tail, n);
  }

  lemma BytesAtWhole(text: string, pos: nat, bs: seq<u8>, n: nat)
    requires pos + 2 * |bs| <= |text| && text[pos..pos + 2 * |bs|] == IhexWriter.BytesText(bs)
    requires n == |bs|
    ensures BytesAt(text, pos, n, false) == Ok(bs)
  {
    BytesAtText(text, pos, bs, n);
    assert bs[..n] == bs;
  }

  /** The writer prints one data byte 0x0a at address 0 as
   * `:010000000af5`. */
  lemma WriterExampleText()
    ensures IhexWriter.RecordText(IhexWriter.HexRecord(0, IhexWriter.DataRecord, [10])) == ":010000000af5\n"
  {
    WriterExampleBytes();
  }

  lemma WriterExampleBytes()
    ensures IhexWriter.RecordBytes(IhexWriter.HexRecord(0, IhexWriter.DataRecord, [10])) == [1, 0, 0, 0, 10, 245]
  {
    var r := IhexWriter.HexRecord(0, IhexWriter.DataRecord, [10]);
    var body: seq<IhexWriter.u8> := [1, 0, 0, 0, 10];
    assert IhexWriter.Sum(body) == 11 by {
      assert body[..4] == [1, 0, 0, 0] && [1, 0, 0, 0][..3] == [1, 0, 0];
      assert [1, 0, 0][..2] == [1, 0] && [1, 0][..1] == [1];
    }
    assert [|r.data| % 256, r.address / 256, r.address % 256, r.recordType] + r.data == body;
  }

  /** The finding: as written, the reader refuses that very record, since
   * it reads `0a` as 0 and `f5` as 0x55, and the bytes then add up to 86. */
  lemma AsWrittenRejectsOwnOutput()
    ensures RecordAt(":010000000af5\n", 0, 0, true) == Err(InvalidChecksum)
  {
    var text := ":010000000af5\n";
    AsWrittenExampleHeader();
    RecordAtColon(text, 0, 0, true, 0);
    AsWrittenExampleBytes();
    RecordAfterColonFields(text, 0, 0, true, 1, Ok([0, 0, 0, 0, 85]));
    assert [1] + [0, 0, 0, 0, 85] == [1, 0, 0, 0, 0, 85];
    RecordFieldsBadSum(1, [0, 0, 0, 0, 85], 0, 0);
  }

  /** Corrected, the reader reads that record back. */
  lemma CorrectedReadsOwnOutput()
    ensures RecordAt(":010000000af5\n", 0, 0, false) == Ok((IhexWriter.HexRecord(0, IhexWriter.DataRecord, [10]), 13))
  {
    WriterExampleText();
    ReadWriteRoundTrip(IhexWriter.HexRecord(0, IhexWriter.DataRecord, [10]), "");
    assert ":010000000af5\n" + "" == ":010000000af5\n";
  }

  lemma AsWrittenExampleHeader()
    ensures Colon(":010000000af5\n", 0) == Ok(0) && ByteAt(":010000000af5\n", 1, true) == Ok(1)
  {
    var text := ":010000000af5\n";
    assert text[0] == ':' && text[1] == '0' && text[2] == '1';
  }

  lemma AsWrittenExampleBytes()
    ensures BytesAt(":010000000af5\n", 3, 5, true) == Ok([0, 0, 0, 0, 85])
    ensures IhexWriter.Sum([1, 0, 0, 0, 0, 85]) == 86
  {
    var text := ":010000000af5\n";
    assert text[3] == '0' && text[4] == '0' && text[5] == '0' && text[6] == '0' && text[7] == '0';
    assert text[8] == '0' && text[9] == '0' && text[10] == 'a' && text[11] == 'f' && text[12] == '5';
    assert ByteAt(text, 3, true) == Ok(0) && ByteAt(text, 5, true) == Ok(0) && ByteAt(text, 7, true) == Ok(0);
    assert ByteAt(text, 9, true) == Ok(0) && ByteAt(text, 11, true) == Ok(85);
    BytesAtStep(text, 3, 1, true, [], 0, [0]);
    BytesAtStep(text, 3, 2, true, [0], 0, [0, 0]);
    BytesAtStep(text, 3, 3, true, [0, 0], 0, [0, 0, 0]);
    BytesAtStep(text, 3, 4, true, [0, 0, 0], 0, [0, 0, 0, 0]);
    BytesAtStep(text, 3, 5, true, [0, 0, 0, 0], 85, [0, 0, 0, 0, 85]);
    var all: seq<IhexWriter.u8> := [1, 0, 0, 0, 0, 85];
    assert all[..5] == [1, 0, 0, 0, 0] && [1, 0, 0, 0, 0][..4] == [1, 0, 0, 0];
    assert [1, 0, 0, 0][..3] == [1, 0, 0] && [1, 0, 0][..2] == [1, 0] && [1, 0][..1] == [1];
  }

  // -------------------------------------------------------- the reader

  /** `read_byte`: two digits, the value added to the running checksum. */
  method ReadByte(text: string, pos: nat, checksum: u8, asWritten: bool) returns (r: Result<u8, ReadError>, sum: u8)
    ensures r == ByteAt(text, pos, asWritten)
    ensures r.Ok? ==> sum == (checksum + r.value) % 256
  {
    var value := 0;
    var i := 0;
    sum := checksum;
    while i < 2
      invariant 0 <= i <= 2 && value < Pow16(i)
      invariant i == 0 ==> value == 0
      invariant i >= 1 ==> pos < |text| && HexValue(text[pos], asWritten).Some?
      invariant i >= 2 ==> pos + 1 < |text| && HexValue(text[pos + 1], asWritten).Some?
      invariant i == 1 ==> value == HexValue(text[pos], asWritten).value
      invariant i == 2 ==> value == HexValue(text[pos], asWritten).value * 16 + HexValue(text[pos + 1], asWritten).value
    {
      if pos + i >= |text| {
        return Err(UnexpectedCharacter), sum;
      }
      var d := HexValue(text[pos + i], asWritten);
      if d.None? {
        return Err(UnexpectedCharacter), sum;
      }
      value := value * 16 + d.value;
      i := i + 1;
    }
    r := Ok(value);
    sum := (checksum + value) % 256;
  }

  function Pow16(i: nat): nat
  {
    if i == 0 then 1 else if i == 1 then 16 else 256
  }

  lemma SumAppend(s: seq<u8>, b: u8)
    ensures IhexWriter.Sum(s + [b]) == IhexWriter.Sum(s) + b
  {
    assert (s + [b])[..|s|] == s;
  }

  /** `ihex_read_record` over the text from `pos`, returning the record and
   * the position after it. */
  method ReadRecord(text: string, pos: nat, prior: u8, asWritten: bool) returns (r: Result<(IhexWriter.HexRecord, nat), ReadError>)
    ensures r == RecordAt(text, pos, prior, asWritten)
  {
    var colon := FindColon(text, pos);
    if colon.Err? {
      return Err(colon.error);
    }
    RecordAtColon(text, pos, prior, asWritten, colon.value);
    r := ReadAfterColon(text, colon.value, prior, asWritten);
  }

  /** The rest of `ihex_read_record`, from the colon at `c`. */
  method ReadAfterColon(text: string, c: nat, prior: u8, asWritten: bool) returns (r: Result<(IhexWriter.HexRecord, nat), ReadError>)
    ensures r == RecordAfterColon(text, c, prior, asWritten)
  {
    var checksum := 0;
    var count;
    count, checksum := ReadByte(text, c + 1, checksum, asWritten);
    if count.Err? {
      return Err(count.error);
    }
    SumSingle(count.value);
    var rest;
    rest, checksum := ReadData(text, c + 3, count.value, checksum, asWritten);
    RecordAfterColonFields(text, c, prior, asWritten, count.value, rest);
    if rest.Err? {
      return Err(rest.error);
    }
    if checksum != 0 {
      RecordFieldsBadSum(count.value, rest.value, c, prior);
      return Err(InvalidChecksum);
    }
    var bytes := rest.value;
    RecordFieldsOk(count.value, bytes, c, prior);
    var address := bytes[0] as int * 256 + bytes[1] as int;
    r := Ok((IhexWriter.HexRecord(address, Or(prior, bytes[2]), bytes[3..count.value as int + 3]), c + 3 + 2 * (count.value as int + 4)));
  }

  lemma SumSingle(b: u8)
    ensures IhexWriter.Sum([b]) == b
  {
    assert [b][..0] == [];
  }

  /** The loop that skips to the colon. */
  method FindColon(text: string, pos: nat) returns (r: Result<nat, ReadError>)
    ensures r == Colon(text, pos)
  {
    var c := pos;
    while c < |text| && text[c] != ':'
      invariant pos <= c && Colon(text, c) == Colon(text, pos)
      decreases |text| - c
    {
      c := c + 1;
    }
    if c >= |text| {
      return Err(UnexpectedEndOfFile);
    }
    return Ok(c);
  }

  /** The loop over the address, type, data and checksum bytes, each added
   * to the running checksum, which starts as the byte count. */
  method ReadData(text: string, pos: nat, count: u8, checksum0: u8, asWritten: bool) returns (rest: Result<seq<u8>, ReadError>, checksum: u8)
    requires checksum0 == IhexWriter.Sum([count]) % 256
    ensures rest == BytesAt(text, pos, count as int + 4, asWritten)
    ensures rest.Ok? ==> checksum == IhexWriter.Sum([count] + rest.value) % 256
  {
    var n: nat := count as int + 4;
    var bytes: seq<u8> := [];
    checksum := checksum0;
    assert [count] + bytes == [count];
    while |bytes| < n
      invariant |bytes| <= n && BytesAt(text, pos, |bytes|, asWritten) == Ok(bytes)
      invariant checksum == IhexWriter.Sum([count] + bytes) % 256
    {
      var b, sum := ReadByte(text, pos + 2 * |bytes|, checksum, asWritten);
      if b.Err? {
        BytesAtFail(text, pos, |bytes| + 1, n, asWritten, bytes, b.error);
        return Err(b.error), sum;
      }
      var next := bytes + [b.value];
      ChecksumStep(count, bytes, b.value, checksum, sum, next);
      BytesAtStep(text, pos, |bytes| + 1, asWritten, bytes, b.value, next);
      bytes, checksum := next, sum;
    }
    rest := Ok(bytes);
  }

  lemma ChecksumStep(count: u8, bytes: seq<u8>, b: u8, before: int, after: int, next: seq<u8>)
    requires before == IhexWriter.Sum([count] + bytes) % 256 && after == (before + b) % 256 && next == bytes + [b]
    ensures after == IhexWriter.Sum([count] + next) % 256
  {
    SumAppend([count] + bytes, b);
    assert [count] + next == [count] + bytes + [b];
  }

  /** A byte that fails to read fails every longer read. */
  lemma BytesAtFail(text: string, pos: nat, k: nat, n: nat, asWritten: bool, init: seq<u8>, e: ReadError)
    requires 0 < k <= n && BytesAt(text, pos, k - 1, asWritten) == Ok(init)
    requires ByteAt(text, pos + 2 * (k - 1), asWritten) == Err(e)
    ensures BytesAt(text, pos, n, asWritten) == Err(e)
  {
    assert BytesAt(text, pos, k, asWritten) == Err(e);
    ErrorPersists(text, pos, k, n, asWritten);
  }

  lemma RecordFieldsBadSum(count: u8, bs: seq<u8>, c: nat, prior: u8)
    requires |bs| == count as int + 4
    requires IhexWriter.Sum([count] + bs) % 256 != 0
    ensures RecordFields(count, Ok(bs), c, prior) == Err(InvalidChecksum)
  {
  }

  /** Once a byte fails to read, reading more bytes fails the same way. */
  lemma {:induction false} ErrorPersists(text: string, pos: nat, k: nat, n: nat, asWritten: bool)
    requires k <= n && BytesAt(text, pos, k, asWritten).Err?
    ensures BytesAt(text, pos, n, asWritten) == BytesAt(text, pos, k, asWritten)
    decreases n - k
  {
    if k < n {
      ErrorPersists(text, pos, k, n - 1, asWritten);
    }
  }
}
