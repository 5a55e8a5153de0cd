/** The helpers a program for the 8-bit machine's Python prototype
 * assembler calls to place labels and data (`trilo8bit/assembler/__init__.py`):
 * `label`, `string_data` and `data`, each a label request followed, for
 * the data helpers, by the bytes.
 *
 * As written, the data helpers define a label even when none is given,
 * under the name `None`, so a second unlabelled datum in one program is a
 * redefinition; `asWritten` selects that behaviour, the corrected one
 * defines no label then. */
module TriloHelpers {
  import opened Wrappers
  import opened TriloAssembler

  datatype DataError = BitsNotWholeBytes | Overflow | NotAscii | Asm(error: AsmError)

  // ------------------------------------------------------- big-endian

  /** `256^n`. */
  function ByteRange(n: nat): (p: nat)
    ensures p >= 1
  {
    if n == 0 then 1 else 256 * ByteRange(n - 1)
  }

  /** `int.to_bytes(n, "big")` of a value that fits. */
  function ToBigEndian(x: nat, n: nat): (bs: seq<u8>)
    ensures |bs| == n
  {
    if n == 0 then [] else ToBigEndian(x / 256, n - 1) + [x % 256]
  }

  /** `int.from_bytes(bs, "big")`. */
  function FromBigEndian(bs: seq<u8>): (x: nat)
    ensures x < ByteRange(|bs|)
  {
    if bs == [] then 0 else 256 * FromBigEndian(bs[..|bs| - 1]) + bs[|bs| - 1]
  }

  /** Bytes written big-endian read back as the value. */
  lemma {:induction false} BigEndianRoundTrip(x: nat, n: nat)
    requires x < ByteRange(n)
    ensures FromBigEndian(ToBigEndian(x, n)) == x
  {
    if n > 0 {
      BigEndianRoundTrip(x / 256, n - 1);
      var bs := ToBigEndian(x, n);
      assert bs[..n - 1] == ToBigEndian(x / 256, n - 1);
    }
  }

  /** And every byte string is the big-endian form of its value. */
  lemma {:induction false} BigEndianOfValue(bs: seq<u8>)
    ensures ToBigEndian(FromBigEndian(bs), |bs|) == bs
  {
    if bs != [] {
      var init := bs[..|bs| - 1];
      BigEndianOfValue(init);
      var x := FromBigEndian(bs);
      assert x / 256 == FromBigEndian(init) && x % 256 == bs[|bs| - 1];
      assert init + [bs[|bs| - 1]] == bs;
    }
  }

  /** `to_bytes` with its check: a negative value, or one with more than
   * `n` bytes, is an `OverflowError`. */
  function ToBytes(x: int, n: nat): (r: Result<seq<u8>, DataError>)
  {
    if 0 <= x < ByteRange(n) then Ok(ToBigEndian(x, n)) else Err(Overflow)
  }

  /** The value of `data`: one integer or a sequence of them. */
  datatype DataValue = Scalar(x: int) | Items(xs: seq<int>)

  /** The items, each as `n` big-endian bytes, one after the other. */
  function ItemsBytes(xs: seq<int>, n: nat): (r: Result<seq<u8>, DataError>)
    decreases |xs|
  {
    if xs == [] then Ok([])
    else
      var first := ToBytes(xs[0], n);
      var rest := ItemsBytes(xs[1..], n);
      if first.Err? then Err(first.error)
      else if rest.Err? then rest
      else Ok(first.value + rest.value)
  }

  /** The bytes `data` emits: the width must be whole bytes, and every
   * integer must fit it. */
  function DataBytes(value: DataValue, bits: nat): (r: Result<seq<u8>, DataError>)
  {
    if bits % 8 != 0 then Err(BitsNotWholeBytes)
    else match value
      case Scalar(x) => ToBytes(x, bits / 8)
      case Items(xs) => ItemsBytes(xs, bits / 8)
  }

  /** The items back from bytes, `n` at a time. */
  function DecodeItems(bs: seq<u8>, n: nat): (xs: seq<int>)
    requires n > 0
    decreases |bs|
  {
    if |bs| < n then [] else [FromBigEndian(bs[..n]) as int] + DecodeItems(bs[n..], n)
  }

  /** `data` of a sequence succeeds exactly when every item fits, and its
   * bytes read back, item by item, as the sequence. */
  lemma {:induction false} ItemsRoundTrip(xs: seq<int>, n: nat)
    requires n > 0
    ensures ItemsBytes(xs, n).Ok? <==> forall i :: 0 <= i < |xs| ==> 0 <= xs[i] < ByteRange(n)
    ensures ItemsBytes(xs, n).Ok? ==> DecodeItems(ItemsBytes(xs, n).value, n) == xs
    decreases |xs|
  {
    if xs != [] {
      ItemsRoundTrip(xs[1..], n);
      assert forall i :: 1 <= i < |xs| ==> xs[i] == xs[1..][i - 1];
      var r := ItemsBytes(xs, n);
      if r.Ok? {
        var first := ToBigEndian(xs[0], n);
        var rest := ItemsBytes(xs[1..], n).value;
        assert r.value == first + rest;
        assert r.value[..n] == first && r.value[n..] == rest;
        BigEndianRoundTrip(xs[0], n);
      }
    }
  }

  /** `data` of one integer gives `bits / 8` bytes that read back as it. */
  lemma ScalarRoundTrip(x: int, bits: nat)
    requires bits % 8 == 0
    ensures DataBytes(Scalar(x), bits).Ok? <==> 0 <= x < ByteRange(bits / 8)
    ensures DataBytes(Scalar(x), bits).Ok? ==>
      |DataBytes(Scalar(x), bits).value| == bits / 8 && FromBigEndian(DataBytes(Scalar(x), bits).value) == x
  {
    if 0 <= x < ByteRange(bits / 8) {
      BigEndianRoundTrip(x, bits / 8);
    }
  }

  // ------------------------------------------------------------ strings

  /** The value of `string_data`: text, encoded as ASCII, or bytes, used
   * as they are. */
  datatype Text = Str(s: string) | Bytes(bytes: seq<u8>)

  /** `str.encode(encoding)` for the default `encoding="ascii"`, which
   * fails on a character above 127; other codecs are not modelled. */
  function Encode(t: Text): (r: Result<seq<u8>, DataError>)
  {
    match t
      case Bytes(bytes) => Ok(bytes)
      case Str(s) =>
        if forall i :: 0 <= i < |s| ==> s[i] as int < 0x80 then
          Ok(seq(|s|, i requires 0 <= i < |s| => s[i] as int))
        else Err(NotAscii)
  }

  /** Encoding keeps every character as its code, and fails exactly when
   * one is not ASCII. */
  lemma EncodeKeeps(s: string)
    ensures Encode(Str(s)).Ok? <==> forall i :: 0 <= i < |s| ==> s[i] as int < 0x80
    ensures Encode(Str(s)).Ok? ==>
      |Encode(Str(s)).value| == |s| && forall i :: 0 <= i < |s| ==> Encode(Str(s)).value[i] == s[i] as int
  {
  }

  // ------------------------------------------------------------ helpers

  /** The requests a data helper makes: the label (see the module
   * comment), then the bytes. */
  function DataOps(labelName: Name, bytes: seq<u8>, asWritten: bool): (ops: seq<Op>)
    ensures Output(ops) == bytes
  {
    assert Output([Emit(bytes)]) == bytes + [];
    if asWritten || labelName.Some? then
      assert [Define(labelName), Emit(bytes)][1..] == [Emit(bytes)];
      [Define(labelName), Emit(bytes)]
    else [Emit(bytes)]
  }

  /** What running `ops` did to `s`, from the table, location and output it
   * had: in the first pass the table the first pass ends with and the
   * location moved past the bytes; in the second the bytes appended. */
  predicate Performed(s: State, ops: seq<Op>, table: SymbolTable, location: int, data: seq<u8>, ok: bool)
    reads s
  {
    if !s.pass2 then
      (ok <==> FirstPass(ops, table, location).Ok?) &&
      (ok ==> s.symbolTable == FirstPass(ops, table, location).value && s.CurrentLocation() == location + |Output(ops)|)
    else
      s.symbolTable == table &&
      (ok <==> SecondPass(ops, table, location).Ok?) &&
      (ok ==> s.data == data + SecondPass(ops, table, location).value)
  }

  /** `label`: a label with the given name here. */
  method Label(s: State, name: string) returns (r: Result<Symbol, AsmError>)
    modifies s
    ensures Performed(s, [Define(Some(name))], old(s.symbolTable), old(s.CurrentLocation()), old(s.data), r.Ok?)
    ensures r.Ok? ==> r.value == Symbol(Some(name), old(s.CurrentLocation()))
  {
    r := s.InsertSymbol(Some(name));
    assert [Define(Some(name))][1..] == [];
    if s.pass2 {
      assert s.data + [] == s.data;
    }
  }

  /** The label and bytes of a data helper. */
  method LabelledData(s: State, labelName: Name, bytes: seq<u8>, asWritten: bool) returns (r: Result<Option<Symbol>, DataError>)
    modifies s
    ensures Performed(s, DataOps(labelName, bytes, asWritten), old(s.symbolTable), old(s.CurrentLocation()), old(s.data), r.Ok?)
    ensures r.Err? ==> r.error.Asm?
    ensures r.Ok? ==> (r.value.Some? <==> asWritten || labelName.Some?)
  {
    ghost var table, location, data := s.symbolTable, s.CurrentLocation(), s.data;
    var symbol: Option<Symbol> := None;
    if asWritten || labelName.Some? {
      assert DataOps(labelName, bytes, asWritten) == [Define(labelName)] + [Emit(bytes)];
      PassesCons(Define(labelName), [Emit(bytes)], table, location);
      var sym := s.InsertSymbol(labelName);
      if sym.Err? {
        return Err(Asm(sym.error));
      }
      symbol := Some(sym.value);
    } else {
      assert DataOps(labelName, bytes, asWritten) == [Emit(bytes)];
    }
    EmitOnly(bytes, s.symbolTable, location);
    s.InsertData(bytes);
    r := Ok(symbol);
  }

  /** A program that only emits `bytes`. */
  lemma EmitOnly(bytes: seq<u8>, table: SymbolTable, location: int)
    ensures FirstPass([Emit(bytes)], table, location) == Ok(table)
    ensures SecondPass([Emit(bytes)], table, location) == Ok(bytes)
  {
    PassesCons(Emit(bytes), [], table, location);
    assert [Emit(bytes)] + [] == [Emit(bytes)];
    assert bytes + [] == bytes;
  }

  /** `string_data` with its default `ascii` encoding: the text encoded (a
   * failure changes nothing), then its label and bytes. */
  method StringData(s: State, value: Text, labelName: Name, asWritten: bool) returns (r: Result<Option<Symbol>, DataError>)
    modifies s
    ensures Encode(value).Err? ==> r == Err(NotAscii) && s.symbolTable == old(s.symbolTable) && s.data == old(s.data)
    ensures Encode(value).Ok? ==>
      Performed(s, DataOps(labelName, Encode(value).value, asWritten), old(s.symbolTable), old(s.CurrentLocation()), old(s.data), r.Ok?)
  {
    var encoded := Encode(value);
    if encoded.Err? {
      return Err(NotAscii);
    }
    r := LabelledData(s, labelName, encoded.value, asWritten);
  }

  /** `data`: the width is checked and every integer converted before the
   * label is defined; a failure there changes nothing. */
  method Data(s: State, value: DataValue, bits: nat, labelName: Name, asWritten: bool) returns (r: Result<Option<Symbol>, DataError>)
    modifies s
    ensures DataBytes(value, bits).Err? ==> r == Err(DataBytes(value, bits).error) && s.symbolTable == old(s.symbolTable) && s.data == old(s.data)
    ensures DataBytes(value, bits).Ok? ==>
      Performed(s, DataOps(labelName, DataBytes(value, bits).value, asWritten), old(s.symbolTable), old(s.CurrentLocation()), old(s.data), r.Ok?)
  {
    var processed := DataBytes(value, bits);
    if processed.Err? {
      return Err(processed.error);
    }
    r := LabelledData(s, labelName, processed.value, asWritten);
  }

  /** The finding: two unlabelled data in one program fail the first pass
   * as written, the second being a redefinition of the label `None`;
   * corrected, the program assembles and both pass agree on it. */
  lemma TwoUnlabelledData(a: seq<u8>, b: seq<u8>)
    ensures FirstPass(DataOps(None, a, true) + DataOps(None, b, true), map[], 0).Err?
    ensures FirstPass(DataOps(None, a, false) + DataOps(None, b, false), map[], 0) == Ok(map[])
    ensures SecondPass(DataOps(None, a, false) + DataOps(None, b, false), map[], 0) == Ok(a + b)
  {
    var t := map[None := Symbol(None, 0)];
    assert DataOps(None, a, true) + DataOps(None, b, true) == [Define(None)] + ([Emit(a)] + [Define(None), Emit(b)]);
    PassesCons(Define(None), [Emit(a)] + [Define(None), Emit(b)], map[], 0);
    PassesCons(Emit(a), [Define(None), Emit(b)], t, 0);
    PassesCons(Define(None), [Emit(b)], t, |a|);
    assert DataOps(None, a, false) + DataOps(None, b, false) == [Emit(a)] + [Emit(b)];
    PassesCons(Emit(a), [Emit(b)], map[], 0);
    EmitOnly(b, map[], |a|);
  }
}
