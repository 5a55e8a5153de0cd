/** The generator of the C emulator's instruction dispatch
 * (`emulator/generate_instruction_handler.py`): each instruction's
 * encoding is spelled as a 16-character pattern of `0`, `1` and `-` (don't
 * care), its first 7 characters are expanded into every concrete opcode,
 * and a 128-slot table maps each opcode to the mnemonic that claimed it
 * last.
 *
 * The JSON input becomes Dafny values: the `instructions` object is a
 * sequence of definitions in the object's order, each with its encoding
 * pieces and its `args` object as a map. Writing the C text is left out;
 * the model produces the table the text spells. */
module HandlerGen {
  import opened Wrappers
  import opened Arith
  import OpcodeTable
  import DecimalText

  const InstructionBits: nat := 16
  const OpcodeBits: nat := 7

  // ------------------------------------------------ concretize_encoding

  /** `str.find("-")`. */
  function FindDash(s: string): (r: int)
    ensures -1 <= r < |s|
    ensures r == -1 ==> forall i :: 0 <= i < |s| ==> s[i] != '-'
    ensures r >= 0 ==> s[r] == '-' && forall i :: 0 <= i < r ==> s[i] != '-'
  {
    if s == [] then -1
    else if s[0] == '-' then 0
    else
      var r := FindDash(s[1..]);
      if r == -1 then -1 else r + 1
  }

  /** Each of `rests` behind `p` and a `0`, then behind `p` and a `1`. */
  function Prefixed(p: string, rests: seq<string>): (r: seq<string>)
    ensures |r| == 2 * |rests|
  {
    if rests == [] then []
    else [p + "0" + rests[0], p + "1" + rests[0]] + Prefixed(p, rests[1..])
  }

  /** `concretize_encoding`: the pattern itself when it has no dash;
   * otherwise the text before the first dash, a `0` or a `1`, and every
   * concretization of the rest. */
  function Concretize(enc: string): (r: seq<string>)
    ensures (forall i :: 0 <= i < |enc| ==> enc[i] != '-') ==> r == [enc]
    decreases |enc|
  {
    var d := FindDash(enc);
    if d == -1 then [enc] else Prefixed(enc[..d], Concretize(enc[d + 1..]))
  }

  /** `s` is a concrete instance of the pattern `enc`: as long, equal at
   * every position but the dashes, and a binary digit at each dash. */
  predicate Instance(s: string, enc: string)
  {
    |s| == |enc| &&
    forall i :: 0 <= i < |s| ==> if enc[i] == '-' then s[i] == '0' || s[i] == '1' else s[i] == enc[i]
  }

  function DashCount(s: string): (n: nat)
  {
    if s == [] then 0 else (if s[0] == '-' then 1 else 0) + DashCount(s[1..])
  }

  lemma {:induction false} PrefixedMember(p: string, rests: seq<string>, s: string)
    ensures s in Prefixed(p, rests) <==>
      |s| > |p| && s[..|p|] == p && (s[|p|] == '0' || s[|p|] == '1') && s[|p| + 1..] in rests
    decreases |rests|
  {
    if rests != [] {
      PrefixedMember(p, rests[1..], s);
      var a, b := p + "0" + rests[0], p + "1" + rests[0];
      assert a[..|p|] == p && a[|p| + 1..] == rests[0];
      assert b[..|p|] == p && b[|p| + 1..] == rests[0];
      if |s| > |p| && s[..|p|] == p && (s[|p|] == '0' || s[|p|] == '1') && s[|p| + 1..] == rests[0] {
        assert s == p + [s[|p|]] + s[|p| + 1..];
      }
      assert rests == [rests[0]] + rests[1..];
    }
  }

  /** A pattern whose first dash is at `d` splits there. */
  lemma InstanceSplit(s: string, enc: string, d: nat)
    requires d < |enc| && enc[d] == '-' && forall i :: 0 <= i < d ==> enc[i] != '-'
    ensures Instance(s, enc) <==>
      |s| > d && s[..d] == enc[..d] && (s[d] == '0' || s[d] == '1') && Instance(s[d + 1..], enc[d + 1..])
  {
    if |s| > d && s[..d] == enc[..d] && (s[d] == '0' || s[d] == '1') && Instance(s[d + 1..], enc[d + 1..]) {
      forall i | 0 <= i < |s|
        ensures if enc[i] == '-' then s[i] == '0' || s[i] == '1' else s[i] == enc[i]
      {
        if i < d {
          assert s[i] == s[..d][i];
        } else if i > d {
          assert s[i] == s[d + 1..][i - d - 1];
        }
      }
    }
  }

  /** `concretize_encoding` yields exactly the instances of the pattern:
   * every string it yields agrees with the pattern away from the dashes,
   * and every such string is yielded. */
  lemma {:induction false} ConcretizeExactly(enc: string, s: string)
    ensures s in Concretize(enc) <==> Instance(s, enc)
    decreases |enc|
  {
    var d := FindDash(enc);
    if d == -1 {
      if Instance(s, enc) {
        assert s == enc;
      }
    } else {
      var rest := enc[d + 1..];
      assert Concretize(enc) == Prefixed(enc[..d], Concretize(rest));
      PrefixedMember(enc[..d], Concretize(rest), s);
      assert |enc[..d]| == d;
      if |s| > d {
        ConcretizeExactly(rest, s[d + 1..]);
      }
      InstanceSplit(s, enc, d);
    }
  }

  lemma {:induction false} DashCountFrom(s: string, d: nat)
    requires d <= |s| && forall i :: 0 <= i < d ==> s[i] != '-'
    ensures DashCount(s) == DashCount(s[d..])
    decreases d
  {
    if d > 0 {
      assert s[1..][d - 1..] == s[d..];
      DashCountFrom(s[1..], d - 1);
    }
  }

  /** It yields `2^k` strings for a pattern with `k` dashes. */
  lemma {:induction false} ConcretizeCount(enc: string)
    ensures |Concretize(enc)| == Pow2(DashCount(enc))
    decreases |enc|
  {
    var d := FindDash(enc);
    if d == -1 {
      DashCountFrom(enc, |enc|);
      assert enc[|enc|..] == [];
    } else {
      var rest := enc[d + 1..];
      ConcretizeCount(rest);
      DashCountFrom(enc, d);
      assert enc[d..][1..] == rest;
      assert DashCount(enc) == 1 + DashCount(rest);
      assert |Concretize(enc)| == 2 * |Concretize(rest)|;
    }
  }

  // ------------------------------------------------------ opcode values

  /** `int(s, base=2)` on a string of binary digits. */
  function BinValue(s: string): (v: nat)
  {
    if s == [] then 0 else 2 * BinValue(s[..|s| - 1]) + if s[|s| - 1] == '1' then 1 else 0
  }

  /** The `n` low bits of `v` as binary digits, most significant first. */
  function Bits(v: nat, n: nat): (s: string)
    ensures |s| == n
  {
    if n == 0 then [] else Bits(v / 2, n - 1) + [if v % 2 == 1 then '1' else '0']
  }

  predicate PatternChars(enc: string)
  {
    forall i :: 0 <= i < |enc| ==> enc[i] == '0' || enc[i] == '1' || enc[i] == '-'
  }

  lemma {:induction false} InstanceMatches(s: string, enc: string)
    requires PatternChars(enc) && Instance(s, enc)
    ensures OpcodeTable.Matches(enc, BinValue(s))
    decreases |enc|
  {
    if enc != [] {
      var n := |enc| - 1;
      assert Instance(s[..n], enc[..n]);
      InstanceMatches(s[..n], enc[..n]);
    }
  }

  lemma {:induction false} MatchesInstance(enc: string, v: nat)
    requires PatternChars(enc) && OpcodeTable.Matches(enc, v)
    ensures Instance(Bits(v, |enc|), enc) && BinValue(Bits(v, |enc|)) == v
    decreases |enc|
  {
    if enc != [] {
      var n := |enc| - 1;
      var init, e := enc[..n], enc[n];
      assert init + [e] == enc;
      assert PatternChars(init);
      assert v % 2 in OpcodeTable.Choices(e) && OpcodeTable.Matches(init, v / 2);
      MatchesInstance(init, v / 2);
      var b, c := Bits(v / 2, n), if v % 2 == 1 then '1' else '0';
      assert Bits(v, |enc|) == b + [c];
      assert (b + [c])[..n] == b;
      assert BinValue(b + [c]) == 2 * BinValue(b) + v % 2;
      InstanceExtend(b, init, c, e);
    }
  }

  /** A concrete instance grows by one character that the pattern's next
   * character allows. */
  lemma InstanceExtend(s: string, enc: string, c: char, e: char)
    requires Instance(s, enc) && (c == '0' || c == '1') && (e == '-' || e == c)
    ensures Instance(s + [c], enc + [e])
  {
    forall i | 0 <= i < |s|
      ensures (s + [c])[i] == s[i] && (enc + [e])[i] == enc[i]
    {
    }
  }

  /** The opcodes, as numbers, of a list of concrete encodings. */
  function Values(encs: seq<string>): (vs: seq<nat>)
    ensures |vs| == |encs|
  {
    seq(|encs|, i requires 0 <= i < |encs| => BinValue(encs[i]))
  }

  /** The slots a pattern claims are exactly the numbers it matches. */
  lemma ConcretizedValues(enc: string, v: nat)
    requires PatternChars(enc)
    ensures v in Values(Concretize(enc)) <==> OpcodeTable.Matches(enc, v)
  {
    var encs := Concretize(enc);
    if v in Values(encs) {
      var i :| 0 <= i < |encs| && BinValue(encs[i]) == v;
      ConcretizeExactly(enc, encs[i]);
      InstanceMatches(encs[i], enc);
    }
    if OpcodeTable.Matches(enc, v) {
      MatchesInstance(enc, v);
      var s := Bits(v, |enc|);
      ConcretizeExactly(enc, s);
      var i :| 0 <= i < |encs| && encs[i] == s;
      assert Values(encs)[i] == v;
    }
  }

  // ------------------------------------------------- handler_encodings

  /** One entry of the `instructions` object. */
  datatype HandlerDef = HandlerDef(mnemonic: string, encoding: seq<string>, args: map<string, string>)

  /** The `ValueError`s the generator raises. */
  datatype GenError = UnknownPiece(piece: string) | BadArgType(argType: string) | BadLength(length: nat) | FixedBitOutsideOpcode

  /** Python's `int()` on an optional sign followed by decimal digits. */
  function PythonInt(s: string): (r: Option<int>)
    ensures r.Some? ==> |s| > 0
  {
    var negative := |s| > 0 && s[0] == '-';
    var digits := if |s| > 0 && (s[0] == '+' || s[0] == '-') then s[1..] else s;
    if |digits| == 0 || !DecimalText.AllDigits(digits) then None
    else if negative then Some(-(DecimalText.DigitsValue(digits) as int))
    else Some(DecimalText.DigitsValue(digits))
  }

  /** The width of an argument: 3 for a register, otherwise the number
   * after the type's first letter (`u8`, `s4`). */
  function ArgSize(argType: string): (r: Result<int, GenError>)
    ensures argType == "gpr" || argType == "cr" ==> r == Ok(3)
    ensures r.Err? ==> r.error == BadArgType(argType)
  {
    if argType == "gpr" || argType == "cr" then Ok(3)
    else
      var n := PythonInt(if |argType| > 0 then argType[1..] else "");
      if n.None? then Err(BadArgType(argType)) else Ok(n.value)
  }

  /** `"-" * n`, which is empty for a negative `n`. */
  function Dashes(n: int): (s: string)
    ensures |s| == if n < 0 then 0 else n
    ensures forall i :: 0 <= i < |s| ==> s[i] == '-'
  {
    seq(if n < 0 then 0 else n, _ => '-')
  }

  /** One encoding piece: an argument's name becomes one dash per bit, a
   * run of `0`, `1` and `x` is kept with `x` as a dash, anything else is
   * an error. */
  function PieceBits(piece: string, args: map<string, string>): (r: Result<string, GenError>)
    ensures r.Ok? ==> PatternChars(r.value)
    ensures piece !in args && r.Ok? ==> |r.value| == |piece|
  {
    if piece in args then
      var size := ArgSize(args[piece]);
      if size.Err? then Err(size.error) else Ok(Dashes(size.value))
    else if forall i :: 0 <= i < |piece| ==> piece[i] in "01x" then
      Ok(seq(|piece|, i requires 0 <= i < |piece| => if piece[i] == 'x' then '-' else piece[i]))
    else Err(UnknownPiece(piece))
  }

  /** The pieces concatenated, left to right, failing at the first bad
   * one. */
  function EncodingString(pieces: seq<string>, args: map<string, string>): (r: Result<string, GenError>)
    ensures r.Ok? ==> PatternChars(r.value)
    decreases |pieces|
  {
    if pieces == [] then Ok("")
    else
      var init := EncodingString(pieces[..|pieces| - 1], args);
      if init.Err? then init
      else
        var last := PieceBits(pieces[|pieces| - 1], args);
        if last.Err? then Err(last.error) else Ok(init.value + last.value)
  }

  /** The checks of `handler_encodings`: 16 characters, and no fixed bit
   * past the opcode. The result is the opcode's pattern. */
  function OpcodePattern(d: HandlerDef): (r: Result<string, GenError>)
    ensures r.Ok? ==> |r.value| == OpcodeBits && PatternChars(r.value)
  {
    var e := EncodingString(d.encoding, d.args);
    if e.Err? then Err(e.error)
    else if |e.value| != InstructionBits then Err(BadLength(|e.value|))
    else if exists i :: OpcodeBits <= i < InstructionBits && e.value[i] != '-' then Err(FixedBitOutsideOpcode)
    else Ok(e.value[..OpcodeBits])
  }

  /** `handler_encodings`: every concrete opcode of the pattern. */
  function HandlerEncodings(d: HandlerDef): (r: Result<seq<string>, GenError>)
  {
    var p := OpcodePattern(d);
    if p.Err? then Err(p.error) else Ok(Concretize(p.value))
  }

  /** The opcodes `handler_encodings` yields are the 7-bit numbers whose
   * bits agree with the encoding's fixed opcode bits, and it fails exactly
   * when the encoding is not 16 characters or fixes a later bit. */
  lemma HandlerEncodingsValues(d: HandlerDef, v: nat)
    ensures var e := EncodingString(d.encoding, d.args);
      HandlerEncodings(d).Ok? <==>
        e.Ok? && |e.value| == InstructionBits &&
        forall i :: OpcodeBits <= i < InstructionBits ==> e.value[i] == '-'
    ensures HandlerEncodings(d).Ok? ==>
      (v in Values(HandlerEncodings(d).value) <==> OpcodeTable.Matches(OpcodePattern(d).value, v))
    ensures HandlerEncodings(d).Ok? && v in Values(HandlerEncodings(d).value) ==> v < Pow2(OpcodeBits)
  {
    var p := OpcodePattern(d);
    if p.Ok? {
      ConcretizedValues(p.value, v);
      if OpcodeTable.Matches(p.value, v) {
        OpcodeTable.MatchesBound(p.value, v);
      }
    }
  }

  // ---------------------------------------------------- the opcode table

  /** The opcode patterns of all definitions, failing at the first
   * definition that fails. */
  function Patterns(defs: seq<HandlerDef>): (r: Result<seq<string>, GenError>)
    ensures r.Ok? ==> |r.value| == |defs|
    ensures r.Ok? ==> forall j :: 0 <= j < |defs| ==> OpcodePattern(defs[j]) == Ok(r.value[j])
    decreases |defs|
  {
    if defs == [] then Ok([])
    else
      var init := Patterns(defs[..|defs| - 1]);
      if init.Err? then init
      else
        var p := OpcodePattern(defs[|defs| - 1]);
        if p.Err? then Err(p.error) else Ok(init.value + [p.value])
  }

  /** The table: slot `o` holds the mnemonic of the last definition whose
   * opcode pattern matches `o`, or nothing. */
  function TableOf(defs: seq<HandlerDef>): (r: Result<seq<Option<string>>, GenError>)
    ensures r.Ok? ==> |r.value| == Pow2(OpcodeBits)
  {
    var ps := Patterns(defs);
    if ps.Err? then Err(ps.error)
    else
      Ok(seq(Pow2(OpcodeBits), o requires 0 <= o => SlotOf(defs, ps.value, o)))
  }

  /** The mnemonic of the owner of slot `o` among the first patterns. */
  function SlotOf(defs: seq<HandlerDef>, patterns: seq<string>, o: nat): (r: Option<string>)
    requires |patterns| <= |defs|
  {
    var owner := OpcodeTable.Owner(patterns, o);
    if owner.Some? then Some(defs[owner.value].mnemonic) else None
  }

  /** The table fails exactly when a definition fails; otherwise a slot
   * names a definition matching it that no later definition matches, and
   * an empty slot is matched by none. */
  lemma TableSlots(defs: seq<HandlerDef>, o: nat)
    requires o < Pow2(OpcodeBits)
    ensures TableOf(defs).Err? <==> exists j :: 0 <= j < |defs| && OpcodePattern(defs[j]).Err?
    ensures TableOf(defs).Ok? && TableOf(defs).value[o].Some? ==>
      exists j :: 0 <= j < |defs| && defs[j].mnemonic == TableOf(defs).value[o].value &&
        OpcodeTable.Matches(OpcodePattern(defs[j]).value, o) &&
        forall k :: j < k < |defs| ==> !OpcodeTable.Matches(OpcodePattern(defs[k]).value, o)
    ensures TableOf(defs).Ok? && TableOf(defs).value[o].None? ==>
      forall k :: 0 <= k < |defs| ==> !OpcodeTable.Matches(OpcodePattern(defs[k]).value, o)
  {
    PatternsFail(defs);
  }

  lemma {:induction false} PatternsFail(defs: seq<HandlerDef>)
    ensures Patterns(defs).Err? <==> exists j :: 0 <= j < |defs| && OpcodePattern(defs[j]).Err?
    decreases |defs|
  {
    if defs != [] {
      var init := defs[..|defs| - 1];
      PatternsFail(init);
      assert forall j :: 0 <= j < |init| ==> init[j] == defs[j];
    }
  }

  /** The top-level loop: for each definition in order, every opcode it
   * yields gets its mnemonic, overwriting what an earlier one wrote. */
  method FillOpcodeTable(defs: seq<HandlerDef>) returns (r: Result<seq<Option<string>>, GenError>)
    ensures r == TableOf(defs)
  {
    var table := new Option<string>[Pow2(OpcodeBits)](_ => None);
    ghost var patterns: seq<string> := [];
    for i := 0 to |defs|
      invariant Patterns(defs[..i]) == Ok(patterns)
      invariant forall o :: 0 <= o < table.Length ==> table[o] == SlotOf(defs, patterns, o)
    {
      assert defs[..i + 1][..i] == defs[..i];
      var encs := HandlerEncodings(defs[i]);
      if encs.Err? {
        PatternsPrefixFail(defs, i + 1);
        return Err(encs.error);
      }
      ghost var before := table[..];
      forall j | 0 <= j < |encs.value|
        ensures BinValue(encs.value[j]) < table.Length
      {
        HandlerEncodingsValues(defs[i], BinValue(encs.value[j]));
        assert Values(encs.value)[j] == BinValue(encs.value[j]);
      }
      ClaimSlots(table, encs.value, defs[i].mnemonic);
      ghost var pattern := OpcodePattern(defs[i]).value;
      forall o | 0 <= o < table.Length
        ensures table[o] == SlotOf(defs, patterns + [pattern], o)
      {
        OpcodeTable.OwnerAppend(patterns, pattern, o);
        HandlerEncodingsValues(defs[i], o);
      }
      patterns := patterns + [pattern];
    }
    assert defs[..|defs|] == defs;
    assert table[..] == TableOf(defs).value;
    r := Ok(table[..]);
  }

  /** The inner loop: each opcode of `encs` gets `mnemonic`. */
  method ClaimSlots(table: array<Option<string>>, encs: seq<string>, mnemonic: string)
    requires forall j :: 0 <= j < |encs| ==> BinValue(encs[j]) < table.Length
    modifies table
    ensures forall o :: 0 <= o < table.Length ==>
      table[o] == if o in Values(encs) then Some(mnemonic) else old(table[o])
  {
    for j := 0 to |encs|
      invariant forall o :: 0 <= o < table.Length ==>
        table[o] == if o in Values(encs[..j]) then Some(mnemonic) else old(table[o])
    {
      assert Values(encs[..j + 1]) == Values(encs[..j]) + [BinValue(encs[j])];
      table[BinValue(encs[j])] := Some(mnemonic);
    }
    assert encs[..|encs|] == encs;
  }

  /** A failing definition makes every longer prefix fail with its
   * error. */
  lemma {:induction false} PatternsPrefixFail(defs: seq<HandlerDef>, n: nat)
    requires 0 < n <= |defs| && Patterns(defs[..n - 1]).Ok? && OpcodePattern(defs[n - 1]).Err?
    ensures Patterns(defs) == Err(OpcodePattern(defs[n - 1]).error)
    decreases |defs|
  {
    var init := defs[..|defs| - 1];
    if |defs| > n {
      assert init[..n - 1] == defs[..n - 1] && init[n - 1] == defs[n - 1];
      PatternsPrefixFail(init, n);
    }
  }
}
