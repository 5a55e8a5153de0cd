/** The data pseudo-instructions of the C assembler
 * (`assembler/pseudo_instructions.c`): the separator read after an
 * operand, and `.db`, `.dw` and `.dd`, which evaluate their operands and
 * emit 16-bit words through `assembler_output_word`.
 *
 * Two slips of the source are modelled beside the intended behaviour,
 * selected by `asWritten`: the word address `assembler_output_word`
 * returns is tested as a truth value, so a word emitted at address 0 is
 * taken for a failure; and the bytes of a `.db` string are `char`, which
 * the usual compilers sign-extend, so a byte of 0x80 or more in an odd
 * position overwrites the high byte of its word with 0xff. */
module PseudoOps {
  import opened Wrappers
  import opened CTokenizer
  import I32
  import AsmTables
  import opened CExpressions
  import opened ExprSemantics

  type u16 = AsmTables.u16
  type i32 = I32.i32

  // ----------------------------------------------------------- parse_sep

  datatype Sep = SepError | SepContinue | SepFinished

  /** `parse_sep` on the token it reads: the end of the line or of the
   * file finishes the operand list, a `,` continues it where a further
   * operand is allowed, and anything else is an error. */
  function ParseSep(t: Token, canContinue: bool): (r: Sep)
    ensures r == SepFinished <==> t == EolToken || t == EofToken
    ensures r == SepContinue <==> t == Char(',') && canContinue
  {
    if t.ErrorToken? then SepError
    else if t == EolToken || t == EofToken then SepFinished
    else if t == Char(',') && canContinue then SepContinue
    else SepError
  }

  /** The position after reading the token at `i`: reading the end of the
   * stream does not move. */
  function Consume(toks: seq<Token>, i: nat): (j: nat)
    requires i <= |toks|
    ensures j <= |toks| && (i < |toks| ==> j == i + 1) && (i == |toks| ==> j == i)
  {
    if i < |toks| then i + 1 else i
  }

  /** Whether a pseudo-instruction succeeded, where its tokens end, and the
   * assembler state after it. */
  datatype Outcome = Outcome(ok: bool, next: nat, st: AsmTables.AsmState)

  // ------------------------------------------------------------ emission

  /** Emitting words one after the other, each through
   * `if (!assembler_output_word(word, state)) return false;`. As written
   * the address returned is a truth value, so the first word emitted at
   * address 0 stops the emission as a failure; as intended only the
   * negative error value would, and the model's output never fails. */
  function EmitAll(st: AsmTables.AsmState, words: seq<u16>, asWritten: bool): (r: (bool, AsmTables.AsmState))
    requires AsmTables.WellFormed(st)
    ensures AsmTables.WellFormed(r.1)
    ensures !asWritten ==> r.0
    decreases |words|
  {
    if words == [] then (true, st)
    else
      AsmTables.OutputWordBytes(st, words[0]);
      var (address, st') := AsmTables.OutputWordSpec(st, words[0]);
      if asWritten && address == 0 then (false, st')
      else EmitAll(st', words[1..], asWritten)
  }

  /** The bytes handed to the Intel HEX writer for `words` emitted from word
   * address `address` on: each word big-endian at twice its address. */
  function WordBytes(address: u16, words: seq<u16>): seq<AsmTables.ByteWrite>
    decreases |words|
  {
    if words == [] then []
    else
      var b := AsmTables.Wrap16(2 * address);
      [AsmTables.ByteWrite(b, words[0] / 0x100), AsmTables.ByteWrite(AsmTables.Wrap16(b + 1), words[0] % 0x100)] +
      WordBytes(AsmTables.Wrap16(address + 1), words[1..])
  }

  /** The bytes carry the words: two per word, high byte first, at an even
   * byte address and the one after it. */
  lemma {:induction false} WordBytesDecode(address: u16, words: seq<u16>, k: nat)
    requires k < |words|
    ensures |WordBytes(address, words)| == 2 * |words|
    ensures WordBytes(address, words)[2 * k].value * 0x100 + WordBytes(address, words)[2 * k + 1].value == words[k]
    ensures WordBytes(address, words)[2 * k].address == AsmTables.Wrap16(2 * AsmTables.Wrap16(address + k))
    decreases |words|
  {
    WordBytesLength(address, words);
    if k > 0 {
      var next := AsmTables.Wrap16(address + 1);
      WordBytesDecode(next, words[1..], k - 1);
      AsmTables.ShiftWrap(address, 1, k - 1);
      assert WordBytes(address, words)[2 * k] == WordBytes(next, words[1..])[2 * (k - 1)];
      assert WordBytes(address, words)[2 * k + 1] == WordBytes(next, words[1..])[2 * (k - 1) + 1];
    }
  }

  lemma {:induction false} WordBytesLength(address: u16, words: seq<u16>)
    ensures |WordBytes(address, words)| == 2 * |words|
    decreases |words|
  {
    if words != [] {
      WordBytesLength(AsmTables.Wrap16(address + 1), words[1..]);
    }
  }

  /** The address of the next word of the current section. */
  function NextWordAddress(st: AsmTables.AsmState): u16
    requires AsmTables.WellFormed(st)
  {
    AsmTables.Wrap16(st.sections[st.current].startAddress + st.sections[st.current].spc)
  }

  /** `st2` is `st` with the current section's counter advanced by `n`
   * (16-bit) and `out` appended to the output, and nothing else changed. */
  predicate Advanced(st: AsmTables.AsmState, st2: AsmTables.AsmState, n: nat, out: seq<AsmTables.ByteWrite>)
    requires AsmTables.WellFormed(st)
  {
    st2.symbols == st.symbols && st2.current == st.current && st2.pass == st.pass &&
    |st2.sections| == |st.sections| &&
    (forall k :: 0 <= k < |st.sections| && k != st.current ==> st2.sections[k] == st.sections[k]) &&
    st2.sections[st.current].startAddress == st.sections[st.current].startAddress &&
    st2.sections[st.current].spc == AsmTables.Wrap16(st.sections[st.current].spc + n) &&
    st2.output == st.output + out
  }

  lemma AdvancedTrans(st: AsmTables.AsmState, st1: AsmTables.AsmState, st2: AsmTables.AsmState, n: nat, m: nat,
                      out1: seq<AsmTables.ByteWrite>, out2: seq<AsmTables.ByteWrite>)
    requires AsmTables.WellFormed(st) && AsmTables.WellFormed(st1)
    requires Advanced(st, st1, n, out1) && Advanced(st1, st2, m, out2)
    ensures Advanced(st, st2, n + m, out1 + out2)
  {
    AsmTables.ShiftWrap(st.sections[st.current].spc, n, m);
  }

  /** The bytes of the current pass for `words` emitted at `address`. */
  function PassBytes(st: AsmTables.AsmState, address: u16, words: seq<u16>): seq<AsmTables.ByteWrite>
  {
    if st.pass == AsmTables.Second then WordBytes(address, words) else []
  }

  /** One word emitted advances the state by one word. */
  lemma EmitOneAdvanced(st: AsmTables.AsmState, w: u16)
    requires AsmTables.WellFormed(st)
    ensures var st1 := AsmTables.OutputWordSpec(st, w).1;
      AsmTables.WellFormed(st1) && Advanced(st, st1, 1, PassBytes(st, NextWordAddress(st), [w])) &&
      NextWordAddress(st1) == AsmTables.Wrap16(NextWordAddress(st) + 1)
  {
    var s := st.sections[st.current];
    AsmTables.OutputWordBytes(st, w);
    var st1 := AsmTables.OutputWordSpec(st, w).1;
    assert [w][1..] == [];
    var b := AsmTables.Wrap16(2 * NextWordAddress(st));
    assert WordBytes(NextWordAddress(st), [w]) ==
      [AsmTables.ByteWrite(b, w / 0x100), AsmTables.ByteWrite(AsmTables.Wrap16(b + 1), w % 0x100)];
    assert st1.sections[st.current].startAddress == s.startAddress;
    AsmTables.ShiftWrap(s.startAddress, s.spc, 1);
    AsmTables.ShiftWrap(s.spc, 1, s.startAddress);
  }

  /** Emitting words as intended advances the current section's counter by
   * their number and changes nothing else but the output, which in the
   * second pass grows by the words' bytes from the current address on. */
  lemma {:induction false} EmitAllEffect(st: AsmTables.AsmState, words: seq<u16>)
    requires AsmTables.WellFormed(st)
    ensures Advanced(st, EmitAll(st, words, false).1, |words|, PassBytes(st, NextWordAddress(st), words))
    decreases |words|
  {
    if words == [] {
      assert st.output + [] == st.output;
    } else {
      var st1 := AsmTables.OutputWordSpec(st, words[0]).1;
      EmitOneAdvanced(st, words[0]);
      EmitAllEffect(st1, words[1..]);
      AdvancedTrans(st, st1, EmitAll(st1, words[1..], false).1, 1, |words| - 1,
        PassBytes(st, NextWordAddress(st), [words[0]]), PassBytes(st1, NextWordAddress(st1), words[1..]));
      assert PassBytes(st, NextWordAddress(st), words) == PassBytes(st, NextWordAddress(st), [words[0]]) + PassBytes(st1, NextWordAddress(st1), words[1..]);
    }
  }

  /** Emitting `a + b` is emitting `a`, then, if that went through, `b`. */
  lemma {:induction false} EmitAllAppend(st: AsmTables.AsmState, a: seq<u16>, b: seq<u16>, asWritten: bool)
    requires AsmTables.WellFormed(st)
    ensures EmitAll(st, a + b, asWritten) ==
      if EmitAll(st, a, asWritten).0 then EmitAll(EmitAll(st, a, asWritten).1, b, asWritten) else EmitAll(st, a, asWritten)
    decreases |a|
  {
    if a == [] {
      assert a + b == b;
    } else {
      assert (a + b)[1..] == a[1..] + b;
      AsmTables.OutputWordBytes(st, a[0]);
      EmitAllAppend(AsmTables.OutputWordSpec(st, a[0]).1, a[1..], b, asWritten);
    }
  }

  // ----------------------------------------------------------------- .dw

  /** `v & 0xffff` for a 32-bit two's-complement `v`. */
  function Low16(v: i32): (r: u16)
    ensures (r - v) % 0x1_0000 == 0
  {
    v % 0x1_0000
  }

  /** `process_dw` from position `i`: each operand is evaluated and emitted
   * as one word, until the end of the line. */
  function Dw(toks: seq<Token>, i: nat, st: AsmTables.AsmState, asWritten: bool): (r: Outcome)
    requires i <= |toks| && AsmTables.WellFormed(st)
    ensures r.next <= |toks| && AsmTables.WellFormed(r.st)
    decreases |toks| - i
  {
    EvaluateBounds(toks, i, st, asWritten);
    var e := EvaluateSpec(toks, i, st, asWritten);
    if e.value.Err? then Outcome(false, e.next, e.st)
    else
      var (ok, st1) := EmitAll(e.st, [Low16(e.value.value)], asWritten);
      var n := Consume(toks, e.next);
      if !ok then Outcome(false, e.next, st1)
      else
        match ParseSep(At(toks, e.next), true)
        case SepError => Outcome(false, n, st1)
        case SepFinished => Outcome(true, n, st1)
        case SepContinue => Dw(toks, n, st1, asWritten)
  }

  /** The numbers `vs` written at `i` as an operand list: separated by
   * commas and ended by the end of the line or of the file. */
  predicate ListedAt(toks: seq<Token>, i: nat, vs: seq<i32>)
    decreases |vs|
  {
    |vs| > 0 && At(toks, i) == Number(vs[0]) &&
    if |vs| == 1 then At(toks, i + 1) in {EolToken, EofToken}
    else At(toks, i + 1) == Char(',') && ListedAt(toks, i + 2, vs[1..])
  }

  function Low16s(vs: seq<i32>): (r: seq<u16>)
    ensures |r| == |vs| && forall k :: 0 <= k < |vs| ==> r[k] == Low16(vs[k])
  {
    if vs == [] then [] else [Low16(vs[0])] + Low16s(vs[1..])
  }

  /** `.dw v1, ..., vn` emits exactly the words `vk & 0xffff`, in order. */
  lemma {:induction false} DwList(toks: seq<Token>, i: nat, st: AsmTables.AsmState, vs: seq<i32>)
    requires AsmTables.WellFormed(st) && ListedAt(toks, i, vs)
    ensures Dw(toks, i, st, false).ok && Dw(toks, i, st, false).st == EmitAll(st, Low16s(vs), false).1
    decreases |vs|
  {
    var w := Low16(vs[0]);
    DwHead(toks, i, st, vs[0]);
    EmitAllAppend(st, [w], Low16s(vs[1..]), false);
    assert Low16s(vs) == [w] + Low16s(vs[1..]);
    if |vs| > 1 {
      DwList(toks, i + 2, EmitAll(st, [w], false).1, vs[1..]);
    } else {
      assert EmitAll(EmitAll(st, [w], false).1, [], false).1 == EmitAll(st, [w], false).1;
    }
  }

  /** One operand of a `.dw` list. */
  lemma DwHead(toks: seq<Token>, i: nat, st: AsmTables.AsmState, v: i32)
    requires AsmTables.WellFormed(st) && At(toks, i) == Number(v)
    requires At(toks, i + 1) == Char(',') || At(toks, i + 1) == EolToken || At(toks, i + 1) == EofToken
    ensures var st1 := EmitAll(st, [Low16(v)], false).1;
      Dw(toks, i, st, false) ==
        if At(toks, i + 1) == Char(',') then Dw(toks, i + 2, st1, false) else Outcome(true, Consume(toks, i + 1), st1)
  {
    EvaluateNumber(toks, i, st, v);
    var e := EvaluateSpec(toks, i, st, false);
    assert e.value == Ok(v) && e.next == i + 1 && e.st == st;
  }

  // ----------------------------------------------------------------- .dd

  /** The high and low halves of the unsigned reinterpretation of `v`. */
  function High16(v: i32): u16
  {
    (v % 0x1_0000_0000) / 0x1_0000
  }

  /** The two words of a `.dd` operand put back together give `v` as an
   * unsigned 32-bit number. */
  lemma DdHalves(v: i32)
    ensures High16(v) * 0x1_0000 + Low16(v) == v % 0x1_0000_0000
  {
    var u := v % 0x1_0000_0000;
    assert u == (u / 0x1_0000) * 0x1_0000 + u % 0x1_0000;
    assert u % 0x1_0000 == v % 0x1_0000 by {
      var q := v / 0x1_0000_0000;
      assert v == q * 0x1_0000_0000 + u;
      assert v == (q * 0x1_0000) * 0x1_0000 + u;
    }
  }

  /** `process_dd` from position `i`: each operand is emitted as two words,
   * high half first. */
  function Dd(toks: seq<Token>, i: nat, st: AsmTables.AsmState, asWritten: bool): (r: Outcome)
    requires i <= |toks| && AsmTables.WellFormed(st)
    ensures r.next <= |toks| && AsmTables.WellFormed(r.st)
    decreases |toks| - i
  {
    EvaluateBounds(toks, i, st, asWritten);
    var e := EvaluateSpec(toks, i, st, asWritten);
    if e.value.Err? then Outcome(false, e.next, e.st)
    else
      var v := e.value.value;
      var (ok, st1) := EmitAll(e.st, [High16(v), Low16(v)], asWritten);
      var n := Consume(toks, e.next);
      if !ok then Outcome(false, e.next, st1)
      else
        match ParseSep(At(toks, e.next), true)
        case SepError => Outcome(false, n, st1)
        case SepFinished => Outcome(true, n, st1)
        case SepContinue => Dd(toks, n, st1, asWritten)
  }

  function DdWords(vs: seq<i32>): (r: seq<u16>)
    ensures |r| == 2 * |vs|
  {
    if vs == [] then [] else [High16(vs[0]), Low16(vs[0])] + DdWords(vs[1..])
  }

  /** `.dd v1, ..., vn` emits the two halves of each operand, in order. */
  lemma {:induction false} DdList(toks: seq<Token>, i: nat, st: AsmTables.AsmState, vs: seq<i32>)
    requires AsmTables.WellFormed(st) && ListedAt(toks, i, vs)
    ensures Dd(toks, i, st, false).ok && Dd(toks, i, st, false).st == EmitAll(st, DdWords(vs), false).1
    decreases |vs|
  {
    var ws := [High16(vs[0]), Low16(vs[0])];
    DdHead(toks, i, st, vs[0]);
    EmitAllAppend(st, ws, DdWords(vs[1..]), false);
    if |vs| > 1 {
      DdList(toks, i + 2, EmitAll(st, ws, false).1, vs[1..]);
    } else {
      assert ws + DdWords(vs[1..]) == ws;
    }
  }

  /** One operand of a `.dd` list. */
  lemma DdHead(toks: seq<Token>, i: nat, st: AsmTables.AsmState, v: i32)
    requires AsmTables.WellFormed(st) && At(toks, i) == Number(v)
    requires At(toks, i + 1) == Char(',') || At(toks, i + 1) == EolToken || At(toks, i + 1) == EofToken
    ensures var st1 := EmitAll(st, [High16(v), Low16(v)], false).1;
      Dd(toks, i, st, false) ==
        if At(toks, i + 1) == Char(',') then Dd(toks, i + 2, st1, false) else Outcome(true, Consume(toks, i + 1), st1)
  {
    EvaluateNumber(toks, i, st, v);
    var e := EvaluateSpec(toks, i, st, false);
    assert e.value == Ok(v) && e.next == i + 1 && e.st == st;
  }

  // ----------------------------------------------------------------- .db

  /** The bytes of words, high byte first. */
  function Unpacked(words: seq<u16>): (r: seq<Byte>)
    ensures |r| == 2 * |words|
  {
    if words == [] then [] else [words[0] / 0x100, words[0] % 0x100] + Unpacked(words[1..])
  }

  lemma {:induction false} UnpackedAppend(a: seq<u16>, b: seq<u16>)
    ensures Unpacked(a + b) == Unpacked(a) + Unpacked(b)
    decreases |a|
  {
    if a == [] {
      assert a + b == b;
    } else {
      assert (a + b)[0] == a[0] && (a + b)[1..] == a[1..] + b;
      UnpackedAppend(a[1..], b);
    }
  }

  /** The word holding `hi` and then `lo`. */
  function Pair(hi: Byte, lo: Byte): (r: u16)
    ensures r / 0x100 == hi && r % 0x100 == lo
  {
    (hi as int) * 0x100 + lo
  }

  /** A `char` of a string literal promoted to a 32-bit `int`:
   * sign-extended on the usual compilers, where `char` is signed. */
  function Promote(c: bv8): bv32
  {
    if c < 0x80 then c as bv32 else (c as bv32) | 0xffff_ff00
  }

  /** `content[i - 1] << 8 | content[i]` on promoted `char`s. Its low 16
   * bits hold the two bytes while the low byte is below 0x80, and else
   * 0xff over the low byte. */
  function PromotedPair(hi: bv8, lo: bv8): (r: bv32)
    ensures lo < 0x80 ==> r & 0xffff == ((hi as bv32) << 8) | (lo as bv32)
    ensures lo >= 0x80 ==> r & 0xffff == 0xff00 | (lo as bv32)
  {
    (Promote(hi) << 8) | Promote(lo)
  }

  lemma JoinBits(hi: bv8, lo: bv8)
    ensures (((hi as bv32) << 8) | (lo as bv32)) as int == (hi as int) * 0x100 + lo as int
  {
    assert ((hi as bv32) << 8) | (lo as bv32) == (hi as bv32) * 0x100 + (lo as bv32);
  }

  lemma HighOnes(lo: bv8)
    ensures (0xff00 | (lo as bv32)) as int == 0xff00 + lo as int
  {
    assert 0xff00 | (lo as bv32) == 0xff00 + (lo as bv32);
  }

  lemma ByteBits(c: Byte)
    ensures (c as bv8) as int == c
    ensures ((c as bv8) < 0x80) == (c < 0x80)
  {
  }

  lemma PromotedPairLow(hi: bv8, lo: bv8)
    ensures lo < 0x80 ==> (PromotedPair(hi, lo) & 0xffff) as int == (hi as int) * 0x100 + lo as int
    ensures lo >= 0x80 ==> (PromotedPair(hi, lo) & 0xffff) as int == 0xff00 + lo as int
  {
    JoinBits(hi, lo);
    HighOnes(lo);
  }

  /** The promoted pair truncated to `uint16_t`, on bits. */
  function TruncatedPair(hi: bv8, lo: bv8): (r: int)
    ensures lo < 0x80 ==> r == (hi as int) * 0x100 + lo as int
    ensures lo >= 0x80 ==> r == 0xff00 + lo as int
  {
    PromotedPairLow(hi, lo);
    (PromotedPair(hi, lo) & 0xffff) as int
  }

  /** The word `.db` makes of two string bytes as written: the pair itself
   * while the low byte is below 0x80, and else 0xff over the low byte. */
  function PairAsWritten(hi: Byte, lo: Byte): (r: u16)
    ensures lo < 0x80 ==> r == Pair(hi, lo)
    ensures lo >= 0x80 ==> r / 0x100 == 0xff && r % 0x100 == lo
  {
    ByteBits(hi);
    ByteBits(lo);
    TruncatedPair(hi as bv8, lo as bv8)
  }

  /** The words `.db "..."` emits: the bytes in pairs, high byte first, and
   * an odd last byte in the high half of a word of its own. */
  function PackString(bytes: seq<Byte>, asWritten: bool): (r: seq<u16>)
    ensures |r| == (|bytes| + 1) / 2
    decreases |bytes|
  {
    if |bytes| == 0 then []
    else if |bytes| == 1 then [Pair(bytes[0], 0)]
    else [if asWritten then PairAsWritten(bytes[0], bytes[1]) else Pair(bytes[0], bytes[1])] + PackString(bytes[2..], asWritten)
  }

  /** As intended, the words of a string carry its bytes in order, with a
   * zero byte after an odd last one. */
  lemma {:induction false} PackStringBytes(bytes: seq<Byte>)
    ensures Unpacked(PackString(bytes, false)) == bytes + (if |bytes| % 2 == 1 then [0] else [])
    decreases |bytes|
  {
    if |bytes| >= 2 {
      PackStringBytes(bytes[2..]);
      assert bytes == [bytes[0], bytes[1]] + bytes[2..];
    }
  }

  /** `.db "..."` followed by the token at `j`: the string's words, then
   * the end of the line; a `,` after a string is an error. */
  function DbString(bytes: seq<Byte>, toks: seq<Token>, j: nat, st: AsmTables.AsmState, asWritten: bool): (r: Outcome)
    requires j <= |toks| && AsmTables.WellFormed(st)
    ensures r.next <= |toks| && AsmTables.WellFormed(r.st)
  {
    var (ok, st1) := EmitAll(st, PackString(bytes, asWritten), asWritten);
    if !ok then Outcome(false, j, st1)
    else Outcome(ParseSep(At(toks, j), false) == SepFinished, Consume(toks, j), st1)
  }

  /** `process_db` with expression operands from position `i`. Each value is
   * cut to its low byte; bytes are paired into words, high byte first,
   * `pending` holding a high byte still waiting for its partner, which is
   * emitted with a zero low byte at the end of the line. */
  function DbFrom(toks: seq<Token>, i: nat, st: AsmTables.AsmState, pending: Option<Byte>, asWritten: bool): (r: Outcome)
    requires i <= |toks| && AsmTables.WellFormed(st)
    ensures r.next <= |toks| && AsmTables.WellFormed(r.st)
    decreases |toks| - i
  {
    EvaluateBounds(toks, i, st, asWritten);
    var e := EvaluateSpec(toks, i, st, asWritten);
    if e.value.Err? then Outcome(false, e.next, e.st)
    else
      var b: Byte := e.value.value % 0x100;
      var (ok, st1) := if pending.Some? then EmitAll(e.st, [Pair(pending.value, b)], asWritten) else (true, e.st);
      var pending' := if pending.Some? then None else Some(b);
      var n := Consume(toks, e.next);
      if !ok then Outcome(false, e.next, st1)
      else
        match ParseSep(At(toks, e.next), true)
        case SepError => Outcome(false, n, st1)
        case SepFinished =>
          if pending'.Some? then
            var (ok2, st2) := EmitAll(st1, [Pair(pending'.value, 0)], asWritten);
            Outcome(ok2, n, st2)
          else Outcome(true, n, st1)
        case SepContinue => DbFrom(toks, n, st1, pending', asWritten)
  }

  /** `process_db` from position `i`: a string literal, or else (the token
   * is pushed back) a list of expressions. */
  function Db(toks: seq<Token>, i: nat, st: AsmTables.AsmState, asWritten: bool): (r: Outcome)
    requires i <= |toks| && AsmTables.WellFormed(st)
    ensures r.next <= |toks| && AsmTables.WellFormed(r.st)
  {
    match At(toks, i)
    case Str(bytes) => DbString(bytes, toks, i + 1, st, asWritten)
    case _ => DbFrom(toks, i, st, None, asWritten)
  }

  /** The low bytes of values. */
  function LowBytes(vs: seq<i32>): (r: seq<Byte>)
    ensures |r| == |vs| && forall k :: 0 <= k < |vs| ==> r[k] == vs[k] % 0x100
  {
    if vs == [] then [] else [vs[0] % 0x100] + LowBytes(vs[1..])
  }

  /** `.db v1, ..., vn` emits the low bytes of the values paired into words,
   * exactly as it would emit a string of those bytes. */
  lemma {:induction false} DbList(toks: seq<Token>, i: nat, st: AsmTables.AsmState, vs: seq<i32>)
    requires AsmTables.WellFormed(st) && ListedAt(toks, i, vs)
    ensures DbFrom(toks, i, st, None, false).ok
    ensures DbFrom(toks, i, st, None, false).st == EmitAll(st, PackString(LowBytes(vs), false), false).1
    decreases |vs|
  {
    var b: Byte := vs[0] % 0x100;
    EvaluateNumber(toks, i, st, vs[0]);
    assert LowBytes(vs) == [b] + LowBytes(vs[1..]);
    if |vs| > 1 {
      DbListAfter(toks, i + 2, st, vs[1..], b);
    } else {
      assert PackString(LowBytes(vs), false) == [Pair(b, 0)];
    }
  }

  /** The same with the high byte `h` pending. */
  lemma {:induction false} DbListAfter(toks: seq<Token>, i: nat, st: AsmTables.AsmState, vs: seq<i32>, h: Byte)
    requires AsmTables.WellFormed(st) && ListedAt(toks, i, vs)
    ensures DbFrom(toks, i, st, Some(h), false).ok
    ensures DbFrom(toks, i, st, Some(h), false).st == EmitAll(st, PackString([h] + LowBytes(vs), false), false).1
    decreases |vs|
  {
    var b: Byte := vs[0] % 0x100;
    var w := Pair(h, b);
    var rest := PackString(LowBytes(vs[1..]), false);
    var st1 := EmitAll(st, [w], false).1;
    DbFromPendingHead(toks, i, st, vs[0], h);
    PackPending(vs, h, w, rest);
    EmitAllAppend(st, [w], rest, false);
    if |vs| > 1 {
      DbList(toks, i + 2, st1, vs[1..]);
    } else {
      assert rest == [];
      assert EmitAll(st1, [], false).1 == st1;
    }
  }

  /** A pending high byte pairs with the first value's low byte. */
  lemma PackPending(vs: seq<i32>, h: Byte, w: u16, rest: seq<u16>)
    requires |vs| > 0 && w == Pair(h, vs[0] % 0x100) && rest == PackString(LowBytes(vs[1..]), false)
    ensures PackString([h] + LowBytes(vs), false) == [w] + rest
  {
    assert [h] + LowBytes(vs) == [h, vs[0] % 0x100] + LowBytes(vs[1..]);
  }

  // ------------------------------------------------- what they keep

  /** Emission keeps the pass and the sections, and writes nothing in the
   * first pass. */
  lemma {:induction false} EmitAllKeeps(st: AsmTables.AsmState, words: seq<u16>, asWritten: bool)
    requires AsmTables.WellFormed(st)
    ensures AsmTables.Keeps(st, EmitAll(st, words, asWritten).1)
    decreases |words|
  {
    if words != [] {
      AsmTables.OutputWordBytes(st, words[0]);
      EmitAllKeeps(AsmTables.OutputWordSpec(st, words[0]).1, words[1..], asWritten);
    }
  }

  /** The data pseudo-instructions read forward and keep what a pass
   * keeps. */
  lemma {:induction false} DwKeeps(toks: seq<Token>, i: nat, st: AsmTables.AsmState, asWritten: bool)
    requires i <= |toks| && AsmTables.WellFormed(st)
    ensures i <= Dw(toks, i, st, asWritten).next && AsmTables.Keeps(st, Dw(toks, i, st, asWritten).st)
    decreases |toks| - i
  {
    EvaluateBounds(toks, i, st, asWritten);
    var e := EvaluateSpec(toks, i, st, asWritten);
    if e.value.Ok? {
      EmitAllKeeps(e.st, [Low16(e.value.value)], asWritten);
      var st1 := EmitAll(e.st, [Low16(e.value.value)], asWritten).1;
      if EmitAll(e.st, [Low16(e.value.value)], asWritten).0 && ParseSep(At(toks, e.next), true) == SepContinue {
        DwKeeps(toks, Consume(toks, e.next), st1, asWritten);
      }
    }
  }

  lemma {:induction false} DdKeeps(toks: seq<Token>, i: nat, st: AsmTables.AsmState, asWritten: bool)
    requires i <= |toks| && AsmTables.WellFormed(st)
    ensures i <= Dd(toks, i, st, asWritten).next && AsmTables.Keeps(st, Dd(toks, i, st, asWritten).st)
    decreases |toks| - i
  {
    EvaluateBounds(toks, i, st, asWritten);
    var e := EvaluateSpec(toks, i, st, asWritten);
    if e.value.Ok? {
      var ws := [High16(e.value.value), Low16(e.value.value)];
      EmitAllKeeps(e.st, ws, asWritten);
      if EmitAll(e.st, ws, asWritten).0 && ParseSep(At(toks, e.next), true) == SepContinue {
        DdKeeps(toks, Consume(toks, e.next), EmitAll(e.st, ws, asWritten).1, asWritten);
      }
    }
  }

  lemma {:induction false} DbFromKeeps(toks: seq<Token>, i: nat, st: AsmTables.AsmState, pending: Option<Byte>, asWritten: bool)
    requires i <= |toks| && AsmTables.WellFormed(st)
    ensures i <= DbFrom(toks, i, st, pending, asWritten).next
    ensures AsmTables.Keeps(st, DbFrom(toks, i, st, pending, asWritten).st)
    decreases |toks| - i
  {
    EvaluateBounds(toks, i, st, asWritten);
    var e := EvaluateSpec(toks, i, st, asWritten);
    if e.value.Ok? {
      var b: Byte := e.value.value % 0x100;
      var st1 := if pending.Some? then EmitAll(e.st, [Pair(pending.value, b)], asWritten).1 else e.st;
      if pending.Some? {
        EmitAllKeeps(e.st, [Pair(pending.value, b)], asWritten);
      }
      var pending' := if pending.Some? then None else Some(b);
      if pending'.Some? {
        EmitAllKeeps(st1, [Pair(pending'.value, 0)], asWritten);
      }
      if ParseSep(At(toks, e.next), true) == SepContinue {
        DbFromKeeps(toks, Consume(toks, e.next), st1, pending', asWritten);
      }
    }
  }

  lemma DbKeeps(toks: seq<Token>, i: nat, st: AsmTables.AsmState, asWritten: bool)
    requires i <= |toks| && AsmTables.WellFormed(st)
    ensures i <= Db(toks, i, st, asWritten).next && AsmTables.Keeps(st, Db(toks, i, st, asWritten).st)
  {
    match At(toks, i)
    case Str(bytes) =>
      EmitAllKeeps(st, PackString(bytes, asWritten), asWritten);
    case _ =>
      DbFromKeeps(toks, i, st, None, asWritten);
  }

  /** One operand of a `.db` list completing the pending word. */
  lemma DbFromPendingHead(toks: seq<Token>, i: nat, st: AsmTables.AsmState, v: i32, h: Byte)
    requires AsmTables.WellFormed(st) && At(toks, i) == Number(v)
    requires At(toks, i + 1) == Char(',') || At(toks, i + 1) == EolToken || At(toks, i + 1) == EofToken
    ensures var st1 := EmitAll(st, [Pair(h, v % 0x100)], false).1;
      DbFrom(toks, i, st, Some(h), false) ==
        if At(toks, i + 1) == Char(',') then DbFrom(toks, i + 2, st1, None, false) else Outcome(true, Consume(toks, i + 1), st1)
  {
    EvaluateNumber(toks, i, st, v);
    var e := EvaluateSpec(toks, i, st, false);
    assert e.value == Ok(v) && e.next == i + 1 && e.st == st;
  }

  // ---------------------------------------------------- the two slips

  /** A symbol that has a value, followed by a separator or the end of the
   * line, evaluates to that value, stops before the separator and leaves
   * the state the lookup leaves; the `)` check plays no part. */
  lemma EvaluateSymbol(toks: seq<Token>, i: nat, st: AsmTables.AsmState, x: string, asWritten: bool)
    requires At(toks, i) == Identifier(x)
    requires At(toks, i + 1) in {Char(','), EolToken, EofToken}
    requires AsmTables.SymbolValueSpec(st, x).0.Some?
    ensures var (v, st') := AsmTables.SymbolValueSpec(st, x);
      EvaluateSpec(toks, i, st, asWritten) == Evaluated(Ok(v.value as i32), i + 1, st')
  {
    var (v, st') := AsmTables.SymbolValueSpec(st, x);
    var one := Stacks(Push(Empty, v.value as i32), Empty);
    ScanUnfold(toks, i, Stacks(Empty, Empty), false, st, asWritten);
    ScanUnfold(toks, i + 1, one, true, st', asWritten);
    assert OperatorFor(At(toks, i + 1), true) == None;
    assert Depth(one.values) == 1;
  }

  /** As written, `.dw x` as the first word of a section at address 0,
   * with `x` a symbol that has a value (in the first pass every symbol
   * has one), is emitted and then reported as a failure; as intended it
   * succeeds. */
  lemma AddressZeroAsWritten(st: AsmTables.AsmState, x: string)
    requires AsmTables.WellFormed(st) && NextWordAddress(st) == 0
    requires AsmTables.SymbolValueSpec(st, x).0.Some?
    ensures !Dw([Identifier(x), EolToken], 0, st, true).ok
    ensures Dw([Identifier(x), EolToken], 0, st, false).ok
  {
    var toks := [Identifier(x), EolToken];
    var (v, st1) := AsmTables.SymbolValueSpec(st, x);
    AsmTables.SymbolValueKeeps(st, x);
    assert st1.sections == st.sections && st1.current == st.current;
    var w := Low16(v.value as i32);
    assert AsmTables.OutputWordSpec(st1, w).0 == 0;
    assert !EmitAll(st1, [w], true).0;
    EvaluateSymbol(toks, 0, st, x, true);
    EvaluateSymbol(toks, 0, st, x, false);
    assert ParseSep(At(toks, 1), true) == SepFinished;
  }

  /** As written, the string bytes 0x01 0x80 become the word 0xff80; as
   * intended they become 0x0180. */
  lemma SignExtendedAsWritten()
    ensures PackString([0x01, 0x80], true) == [0xff80]
    ensures PackString([0x01, 0x80], false) == [0x0180]
  {
    assert PairAsWritten(0x01, 0x80) == 0xff80;
  }

  /** The two readings agree on strings of ASCII bytes, and on every word
   * emitted away from address 0. */
  lemma PackStringAscii(bytes: seq<Byte>)
    requires forall k :: 0 <= k < |bytes| ==> bytes[k] < 0x80
    ensures PackString(bytes, true) == PackString(bytes, false)
    decreases |bytes|
  {
    if |bytes| >= 2 {
      PackStringAscii(bytes[2..]);
    }
  }

  // ------------------------------------------------------------- methods

  /** `process_dw`. */
  method ProcessDw(asm: AsmTables.Assembler, toks: seq<Token>, start: nat) returns (ok: bool, next: nat)
    requires asm.Valid() && start <= |toks|
    modifies asm
    ensures asm.Valid()
    ensures Outcome(ok, next, asm.Snapshot()) == Dw(toks, start, old(asm.Snapshot()), false)
  {
    var i := start;
    while true
      invariant asm.Valid() && i <= |toks|
      invariant Dw(toks, start, old(asm.Snapshot()), false) == Dw(toks, i, asm.Snapshot(), false)
      decreases |toks| - i
    {
      ghost var st0 := asm.Snapshot();
      EvaluateBounds(toks, i, st0, false);
      var v, after := Evaluate(asm, toks, i);
      if v.Err? {
        return false, after;
      }
      ghost var st1 := asm.Snapshot();
      var address := asm.OutputWord(Low16(v.value));
      assert EmitAll(st1, [Low16(v.value)], false) == (true, asm.Snapshot());
      next := Consume(toks, after);
      var sep := ParseSep(At(toks, after), true);
      if sep == SepError {
        return false, next;
      } else if sep == SepFinished {
        return true, next;
      }
      i := next;
    }
  }

  /** `process_dd`. */
  method ProcessDd(asm: AsmTables.Assembler, toks: seq<Token>, start: nat) returns (ok: bool, next: nat)
    requires asm.Valid() && start <= |toks|
    modifies asm
    ensures asm.Valid()
    ensures Outcome(ok, next, asm.Snapshot()) == Dd(toks, start, old(asm.Snapshot()), false)
  {
    var i := start;
    while true
      invariant asm.Valid() && i <= |toks|
      invariant Dd(toks, start, old(asm.Snapshot()), false) == Dd(toks, i, asm.Snapshot(), false)
      decreases |toks| - i
    {
      ghost var st0 := asm.Snapshot();
      EvaluateBounds(toks, i, st0, false);
      var v, after := Evaluate(asm, toks, i);
      if v.Err? {
        return false, after;
      }
      ghost var st1 := asm.Snapshot();
      var high := asm.OutputWord(High16(v.value));
      ghost var st2 := asm.Snapshot();
      var low := asm.OutputWord(Low16(v.value));
      EmitAllAppend(st1, [High16(v.value)], [Low16(v.value)], false);
      assert [High16(v.value)] + [Low16(v.value)] == [High16(v.value), Low16(v.value)];
      assert EmitAll(st1, [High16(v.value)], false) == (true, st2);
      assert EmitAll(st2, [Low16(v.value)], false) == (true, asm.Snapshot());
      next := Consume(toks, after);
      var sep := ParseSep(At(toks, after), true);
      if sep == SepError {
        return false, next;
      } else if sep == SepFinished {
        return true, next;
      }
      i := next;
    }
  }

  /** The string branch of `process_db`: the pairs, then a lone last byte. */
  method EmitString(asm: AsmTables.Assembler, bytes: seq<Byte>)
    requires asm.Valid()
    modifies asm
    ensures asm.Valid()
    ensures asm.Snapshot() == EmitAll(old(asm.Snapshot()), PackString(bytes, false), false).1
  {
    ghost var goal := EmitAll(asm.Snapshot(), PackString(bytes, false), false).1;
    var i := 1;
    ghost var pairs := 0;
    assert bytes[i - 1..] == bytes;
    while i < |bytes|
      invariant asm.Valid() && 1 <= i <= |bytes| + 1 && i == 2 * pairs + 1
      invariant goal == EmitAll(asm.Snapshot(), PackString(bytes[i - 1..], false), false).1
      decreases |bytes| - i
    {
      ghost var st0 := asm.Snapshot();
      var address := asm.OutputWord(Pair(bytes[i - 1], bytes[i]));
      EmitStringPair(st0, bytes, i, goal);
      i := i + 2;
      pairs := pairs + 1;
    }
    OddEnd(|bytes|, pairs);
    ghost var st0 := asm.Snapshot();
    if |bytes| % 2 == 1 {
      var address := asm.OutputWord(Pair(bytes[|bytes| - 1], 0));
      EmitStringLast(st0, bytes, i, goal, true);
    } else {
      EmitStringLast(st0, bytes, i, goal, false);
    }
  }

  /** One pair of string bytes emitted. */
  lemma EmitStringPair(st0: AsmTables.AsmState, bytes: seq<Byte>, i: nat, goal: AsmTables.AsmState)
    requires AsmTables.WellFormed(st0) && 1 <= i < |bytes|
    requires goal == EmitAll(st0, PackString(bytes[i - 1..], false), false).1
    ensures goal == EmitAll(AsmTables.OutputWordSpec(st0, Pair(bytes[i - 1], bytes[i])).1, PackString(bytes[i + 1..], false), false).1
  {
    var w := Pair(bytes[i - 1], bytes[i]);
    PackStringStep(bytes, i);
    EmitAllAppend(st0, [w], PackString(bytes[i + 1..], false), false);
    EmitOne(st0, w);
  }

  /** The loop over pairs stops on the last byte exactly when there is an
   * odd one. */
  lemma OddEnd(n: nat, pairs: nat)
    requires n <= 2 * pairs + 1 <= n + 1
    ensures n % 2 == 1 <==> 2 * pairs + 1 == n
  {
  }

  /** The lone last byte of an odd string, or nothing. */
  lemma EmitStringLast(st0: AsmTables.AsmState, bytes: seq<Byte>, i: nat, goal: AsmTables.AsmState, odd: bool)
    requires AsmTables.WellFormed(st0) && 1 <= i && (i == |bytes| || i == |bytes| + 1)
    requires odd <==> i == |bytes|
    requires goal == EmitAll(st0, PackString(bytes[i - 1..], false), false).1
    ensures goal == if odd then AsmTables.OutputWordSpec(st0, Pair(bytes[|bytes| - 1], 0)).1 else st0
  {
    if odd {
      assert bytes[i - 1..] == [bytes[|bytes| - 1]];
      EmitLoneByte(st0, bytes[|bytes| - 1]);
    } else {
      assert bytes[i - 1..] == [];
      assert PackString([], false) == [];
    }
  }

  lemma EmitLoneByte(st0: AsmTables.AsmState, b: Byte)
    requires AsmTables.WellFormed(st0)
    ensures EmitAll(st0, PackString([b], false), false).1 == AsmTables.OutputWordSpec(st0, Pair(b, 0)).1
  {
    assert PackString([b], false) == [Pair(b, 0)];
    EmitOne(st0, Pair(b, 0));
  }

  lemma PackStringStep(bytes: seq<Byte>, i: nat)
    requires 1 <= i < |bytes|
    ensures PackString(bytes[i - 1..], false) == [Pair(bytes[i - 1], bytes[i])] + PackString(bytes[i + 1..], false)
  {
    assert bytes[i - 1..][2..] == bytes[i + 1..];
  }

  /** Emitting one word is one `assembler_output_word`. */
  lemma EmitOne(st: AsmTables.AsmState, w: u16)
    requires AsmTables.WellFormed(st)
    ensures EmitAll(st, [w], false).1 == AsmTables.OutputWordSpec(st, w).1
  {
  }

  /** `process_db`. */
  method ProcessDb(asm: AsmTables.Assembler, toks: seq<Token>, start: nat) returns (ok: bool, next: nat)
    requires asm.Valid() && start <= |toks|
    modifies asm
    ensures asm.Valid()
    ensures Outcome(ok, next, asm.Snapshot()) == Db(toks, start, old(asm.Snapshot()), false)
  {
    var first := At(toks, start);
    if first.Str? {
      EmitString(asm, first.bytes);
      var sep := ParseSep(At(toks, start + 1), false);
      return sep == SepFinished, Consume(toks, start + 1);
    }
    var pending: Option<Byte> := None;
    var i := start;
    while true
      invariant asm.Valid() && i <= |toks|
      invariant Db(toks, start, old(asm.Snapshot()), false) == DbFrom(toks, i, asm.Snapshot(), pending, false)
      decreases |toks| - i
    {
      ghost var st0 := asm.Snapshot();
      EvaluateBounds(toks, i, st0, false);
      var v, after := Evaluate(asm, toks, i);
      if v.Err? {
        return false, after;
      }
      var b: Byte := v.value % 0x100;
      ghost var st1 := asm.Snapshot();
      if pending.Some? {
        var address := asm.OutputWord(Pair(pending.value, b));
        assert EmitAll(st1, [Pair(pending.value, b)], false) == (true, asm.Snapshot());
        pending := None;
      } else {
        pending := Some(b);
      }
      next := Consume(toks, after);
      var sep := ParseSep(At(toks, after), true);
      if sep == SepError {
        return false, next;
      } else if sep == SepFinished {
        if pending.Some? {
          ghost var st2 := asm.Snapshot();
          var address := asm.OutputWord(Pair(pending.value, 0));
          assert EmitAll(st2, [Pair(pending.value, 0)], false) == (true, asm.Snapshot());
        }
        return true, next;
      }
      i := next;
    }
  }
}
