/** The instruction layer of the C assembler (`assembler/assembler.c` and
 * the dispatch of `assembler/pseudo_instructions.c`): register operands,
 * immediate operands and their range check, the encoding of one
 * instruction from the generated table, the pseudo-instructions, and the
 * line loop of `assemble` over one file and over the files named on the
 * command line.
 *
 * The generated table's entries are taken to be valid in the sense of
 * `GenInstructions.EntryValid`, which `GenInstructions.GenerateValid`
 * proves of every table the generator writes: each operand field then
 * lies in the 16-bit word, is zero in the base encoding, and shares no bit
 * with another, so `encoding |= argValue << shift` adds the operand into
 * a zero field and is written as that sum. */
module CAssembler {
  import opened Wrappers
  import opened Arith
  import opened WordFields
  import opened CTokenizer
  import AsmTables
  import CExpressions
  import PseudoOps
  import CUtil
  import GI = GenInstructions

  type u16 = AsmTables.u16
  type AsmState = AsmTables.AsmState

  /** Why a line is rejected. `AssertionFailed` is an `assert` of the
   * source that fires, which aborts the program. */
  datatype AsmError =
    | TokenError
    | ExpectedIdentifier
    | InvalidInstruction(name: string)
    | InvalidPseudoInstruction(name: string)
    | ExpectedRegister
    | ExpectedControlRegister
    | ExpressionFailed
    | OutOfRange
    | ExtraParameter
    | MissingParameters
    | UnexpectedInput
    | ExpectedString
    | SeparatorRejected
    | DataRejected
    | SectionRejected
    | LabelRejected
    | CannotOpen(path: string)
    | IncludeTooDeep
    | AssertionFailed

  // ------------------------------------------------------------ parse_gpr

  /** `parse_gpr` on the token it reads: a two-character identifier `r`
   * followed by a digit below 8 names that register; anything else is -1. */
  function ParseGpr(t: Token): (r: int)
    ensures -1 <= r < 8
  {
    if t.Identifier? && |t.text| == 2 && t.text[0] == 'r' then
      var d := CUtil.ParseDigit(t.text[1]);
      if 0 <= d < 8 then d else -1
    else -1
  }

  /** The name of general purpose register `n`. */
  function GprName(n: nat): (s: string)
    requires n < 8
  {
    ['r', ('0' as int + n) as char]
  }

  /** Every register name reads back as its register, and a token that
   * reads as a register is exactly that register's name. */
  lemma GprRoundTrip(t: Token, n: nat)
    ensures n < 8 ==> ParseGpr(Identifier(GprName(n))) == n
    ensures ParseGpr(t) >= 0 ==> t == Identifier(GprName(ParseGpr(t)))
  {
    if ParseGpr(t) >= 0 {
      assert t.text == [t.text[0], t.text[1]];
    }
  }

  // ------------------------------------------------------------- parse_cr

  const CrNames: seq<string> :=
    ["Status", "Tmp1", "Tmp2", "ContextId", "IntCause", "IntPc", "MMUAddr", "MMUData"]

  /** `parse_cr` on the token it reads: the index of the first control
   * register name equal to an identifier, and -1 otherwise. */
  function CrIndex(t: Token): (r: int)
    ensures -1 <= r < |CrNames|
    ensures r >= 0 ==> t == Identifier(CrNames[r])
    ensures r == -1 <==> !(t.Identifier? && t.text in CrNames)
  {
    if !t.Identifier? then -1
    else
      match AsmTables.FindFrom(CrNames, t.text, 0)
      case Some(k) => k
      case None => -1
  }

  /** No two control registers share a name, so each name reads back as
   * its own register. */
  lemma CrRoundTrip(k: nat)
    requires k < |CrNames|
    ensures CrIndex(Identifier(CrNames[k])) == k
  {
    var r := CrIndex(Identifier(CrNames[k]));
    assert CrNames[r] == CrNames[k];
    CrNamesDistinct(r, k);
  }

  lemma CrNamesDistinct(j: nat, k: nat)
    requires j < |CrNames| && k < |CrNames| && CrNames[j] == CrNames[k]
    ensures j == k
  {
    assert CrNames[j][0] == CrNames[k][0];
    assert |CrNames[j]| == |CrNames[k]|;
    if j == 1 || j == 2 {
      assert CrNames[j][3] == CrNames[k][3];
    } else if j == 4 || j == 5 {
      assert CrNames[j][3] == CrNames[k][3];
    } else if j == 6 || j == 7 {
      assert CrNames[j][3] == CrNames[k][3];
    }
  }

  /** The name loop of `parse_cr`. */
  method ParseCr(t: Token) returns (r: int)
    ensures r == CrIndex(t)
  {
    r := -1;
    if t.Identifier? {
      var i := 0;
      while i < |CrNames|
        invariant 0 <= i <= |CrNames|
        invariant AsmTables.FindFrom(CrNames, t.text, 0) == AsmTables.FindFrom(CrNames, t.text, i)
      {
        if t.text == CrNames[i] {
          r := i;
          break;
        }
        i := i + 1;
      }
    }
  }

  // ------------------------------------------- parse_number_for_instruction

  /** The range `min .. max` (inclusive) of an operand of `size` bits:
   * `-(2^size / 2) .. 2^size / 2 - 1` when signed, `0 .. 2^size - 1` when
   * unsigned. As written the unsigned maximum is `1 << size` itself. */
  function Bounds(signed: bool, size: nat, asWritten: bool): (b: (int, int))
  {
    var top := Pow2(size);
    if signed then (-(top / 2), top / 2 - 1)
    else (0, if asWritten then top else top - 1)
  }

  /** `parse_number_for_instruction` once the expression has a value: the
   * size must be below 15 (an `assert`), the value must lie in the range,
   * and a negative value becomes its two's complement in `size` bits. */
  function NumberForInstruction(v: int, signed: bool, size: nat, asWritten: bool): (r: Result<nat, AsmError>)
    ensures r.Err? ==> r.error == (if size >= 15 then AssertionFailed else OutOfRange)
  {
    if size >= 15 then Err(AssertionFailed)
    else
      var (lo, hi) := Bounds(signed, size, asWritten);
      if v < lo || v > hi then Err(OutOfRange)
      else if v >= 0 then Ok(v)
      else Ok(Pow2(size) + v)
  }

  /** The operands a field of `size` bits can carry. */
  predicate Representable(v: int, signed: bool, size: nat)
  {
    if signed then size > 0 && -(Pow2(size - 1) as int) <= v < Pow2(size - 1)
    else 0 <= v < Pow2(size)
  }

  /** A field of `size` bits read back as two's complement. */
  function SignedValue(f: nat, size: nat): int
  {
    if size > 0 && f >= Pow2(size - 1) then f - Pow2(size) else f
  }

  /** An operand is accepted exactly when the field can carry it, and the
   * field then reads back as the operand, as two's complement when signed. */
  lemma NumberForInstructionMeaning(v: int, signed: bool, size: nat)
    ensures var r := NumberForInstruction(v, signed, size, false);
      (r.Ok? <==> size < 15 && Representable(v, signed, size)) &&
      (r.Ok? ==> r.value < Pow2(size) && (if signed then SignedValue(r.value, size) else r.value) == v)
  {
    if size > 0 {
      assert Pow2(size) == 2 * Pow2(size - 1);
    }
  }

  /** As written an unsigned 3-bit operand of 8 passes the range check and
   * comes back as 8, which does not fit the field: the `assert` that
   * follows in `process_instruction` aborts the program. As intended it
   * is out of range. */
  lemma NumberAsWritten()
    ensures NumberForInstruction(8, false, 3, true) == Ok(8)
    ensures 8 / Pow2(3) != 0
    ensures NumberForInstruction(8, false, 3, false) == Err(OutOfRange)
  {
    Pow2Values();
  }

  // ----------------------------------------------------------- operands

  /** One operand read from position `i`: its field value, or why there is
   * none; the position after it; the state (an expression may enter an
   * undefined symbol). */
  datatype Operand = Operand(value: Result<nat, AsmError>, next: nat, st: AsmState)

  /** The `switch (arg->type)` of `process_instruction`. A register
   * operand is one token. As written, `parse_gpr` and `parse_cr` pass that
   * token to `push_identifier_to_buffer`, whose `assert` aborts on a token
   * that is not an identifier; corrected, such a token is the ordinary
   * "expected register" error. */
  function OperandAt(toks: seq<Token>, i: nat, st: AsmState, a: GI.ArgDef, asWritten: bool): (r: Operand)
    requires i <= |toks| && AsmTables.WellFormed(st)
    ensures i <= r.next <= |toks| && AsmTables.WellFormed(r.st) && AsmTables.SameLayout(st, r.st)
    ensures a.kind in {GI.Gpr, GI.Cr} ==> r.next == Consume(toks, i) && r.st == st
    ensures a.kind in {GI.Gpr, GI.Cr} ==> (r.value == Err(AssertionFailed) <==> asWritten && !At(toks, i).Identifier?)
    ensures a.kind == GI.Gpr && r.value.Ok? ==> r.value.value < 8 && At(toks, i) == Identifier(GprName(r.value.value))
    ensures a.kind == GI.Cr && r.value.Ok? ==> r.value.value < |CrNames| && At(toks, i) == Identifier(CrNames[r.value.value])
  {
    match a.kind
    case Gpr =>
      var t := At(toks, i);
      var g := ParseGpr(t);
      GprRoundTrip(t, 0);
      Operand(if asWritten && !t.Identifier? then Err(AssertionFailed) else if g < 0 then Err(ExpectedRegister) else Ok(g), Consume(toks, i), st)
    case Cr =>
      var t := At(toks, i);
      var c := CrIndex(t);
      Operand(if asWritten && !t.Identifier? then Err(AssertionFailed) else if c < 0 then Err(ExpectedControlRegister) else Ok(c), Consume(toks, i), st)
    case _ =>
      CExpressions.EvaluateBounds(toks, i, st, asWritten);
      var e := CExpressions.EvaluateSpec(toks, i, st, asWritten);
      if e.value.Err? then
        Operand(Err(if e.value.error == CExpressions.AssertionFailure then AssertionFailed else ExpressionFailed), e.next, e.st)
      else Operand(NumberForInstruction(e.value.value, a.kind == GI.Signed, a.size, asWritten), e.next, e.st)
  }

  /** A register operand that is not an identifier, such as the `5` of
   * `add 5, r1, r2`: as written the assembler aborts, corrected it reports
   * the missing register. */
  lemma RegisterNotIdentifier(toks: seq<Token>, i: nat, st: AsmState, a: GI.ArgDef)
    requires i <= |toks| && AsmTables.WellFormed(st)
    requires a.kind in {GI.Gpr, GI.Cr} && !At(toks, i).Identifier?
    ensures OperandAt(toks, i, st, a, true).value == Err(AssertionFailed)
    ensures OperandAt(toks, i, st, a, false).value == Err(if a.kind == GI.Gpr then ExpectedRegister else ExpectedControlRegister)
  {
  }

  /** The position after reading the token at `i`. */
  function Consume(toks: seq<Token>, i: nat): (j: nat)
    requires i <= |toks|
    ensures j <= |toks| && (i < |toks| ==> j == i + 1) && (i == |toks| ==> j == i)
  {
    PseudoOps.Consume(toks, i)
  }

  /** The separator after an operand: a `,` exactly when more operands
   * follow, the end of the line or file after the last. */
  function Separator(t: Token, last: bool): (r: Option<AsmError>)
    ensures r.None? <==> if last then t == EolToken || t == EofToken else t == Char(',')
  {
    var lineEnd := t == EolToken || t == EofToken;
    var comma := t == Char(',');
    if t == ErrorToken then Some(TokenError)
    else if comma && last then Some(ExtraParameter)
    else if lineEnd && !last then Some(MissingParameters)
    else if !comma && !lineEnd then Some(UnexpectedInput)
    else None
  }

  /** The operands and their separators, as the values they put into
   * their fields. */
  datatype Operands = Operands(values: Result<seq<nat>, AsmError>, next: nat, st: AsmState)

  /** The argument loop of `process_instruction` from argument `k`, with
   * the values `done` of the arguments before it. After each value come
   * the two `assert`s of the source, that it fits its field and the field
   * the word. */
  function OperandsFrom(toks: seq<Token>, i: nat, st: AsmState, args: seq<GI.ArgDef>, k: nat, done: seq<nat>, asWritten: bool): (r: Operands)
    requires i <= |toks| && k <= |args| && AsmTables.WellFormed(st)
    ensures i <= r.next <= |toks| && AsmTables.WellFormed(r.st) && AsmTables.SameLayout(st, r.st)
    ensures r.values.Ok? ==> |r.values.value| == |done| + (|args| - k)
    decreases |args| - k
  {
    if k == |args| then Operands(Ok(done), i, st)
    else
      var a := args[k];
      var o := OperandAt(toks, i, st, a, asWritten);
      if o.value.Err? then Operands(Err(o.value.error), o.next, o.st)
      else if o.value.value / Pow2(a.size) != 0 || a.shift + a.size > 16 then Operands(Err(AssertionFailed), o.next, o.st)
      else
        var n := Consume(toks, o.next);
        match Separator(At(toks, o.next), k + 1 == |args|)
        case Some(e) => Operands(Err(e), n, o.st)
        case None => OperandsFrom(toks, n, o.st, args, k + 1, done + [o.value.value], asWritten)
  }

  /** A successful loop has one value per argument, keeps those read
   * before, and every value fits its field. */
  lemma {:induction false} OperandsFacts(toks: seq<Token>, i: nat, st: AsmState, args: seq<GI.ArgDef>, k: nat, done: seq<nat>, asWritten: bool)
    requires i <= |toks| && k <= |args| && AsmTables.WellFormed(st)
    requires |done| == k && forall j :: 0 <= j < k ==> done[j] < Pow2(args[j].size)
    ensures var r := OperandsFrom(toks, i, st, args, k, done, asWritten);
      r.values.Ok? ==>
        |r.values.value| == |args| && r.values.value[..k] == done &&
        forall j :: 0 <= j < |args| ==> r.values.value[j] < Pow2(args[j].size)
    decreases |args| - k
  {
    if k < |args| {
      var o := OperandAt(toks, i, st, args[k], asWritten);
      if o.value.Ok? && o.value.value / Pow2(args[k].size) == 0 && args[k].shift + args[k].size <= 16 {
        var n := Consume(toks, o.next);
        var done' := done + [o.value.value];
        OperandsFacts(toks, n, o.st, args, k + 1, done', asWritten);
        var r := OperandsFrom(toks, n, o.st, args, k + 1, done', asWritten);
        if r.values.Ok? {
          assert r.values.value[..k] == r.values.value[..k + 1][..k];
        }
      }
    }
  }

  // ------------------------------------------------------------ encoding

  /** The base encoding with each operand added into its field, in order. */
  function Compose(encoding: nat, args: seq<GI.ArgDef>, values: seq<nat>): nat
    requires |values| <= |args|
    decreases |values|
  {
    if values == [] then encoding
    else
      var n := |values| - 1;
      Compose(encoding, args, values[..n]) + values[n] * Pow2(args[n].shift)
  }

  predicate TableValid(table: seq<GI.InstrDef>)
  {
    forall k :: 0 <= k < |table| ==> GI.EntryValid(table[k])
  }

  /** Each operand written so far is in its field, the fields still to
   * come are zero, and the word stays a 16-bit word. */
  lemma {:induction false} ComposeFields(d: GI.InstrDef, values: seq<nat>)
    requires GI.EntryValid(d) && |values| <= |d.args|
    requires forall j :: 0 <= j < |values| ==> values[j] < Pow2(d.args[j].size)
    ensures Compose(d.encoding, d.args, values) < 0x1_0000
    ensures forall j :: 0 <= j < |values| ==>
      FieldOf(Compose(d.encoding, d.args, values), d.args[j].shift, d.args[j].size) == values[j]
    ensures forall j :: |values| <= j < |d.args| ==>
      FieldOf(Compose(d.encoding, d.args, values), d.args[j].shift, d.args[j].size) == 0
    decreases |values|
  {
    if values != [] {
      var n := |values| - 1;
      var prev := values[..n];
      ComposeFields(d, prev);
      assert values == prev + [values[n]];
      ComposeStep(d, prev, values[n], Compose(d.encoding, d.args, prev), Compose(d.encoding, d.args, values), values);
    }
  }

  /** Adding the next operand into its field: the fields written so far
   * keep their values, the new one holds the operand, the rest stay zero. */
  lemma ComposeStep(d: GI.InstrDef, prev: seq<nat>, x: nat, w: nat, word: nat, values: seq<nat>)
    requires GI.EntryValid(d) && |prev| < |d.args| && x < Pow2(d.args[|prev|].size)
    requires w < 0x1_0000
    requires forall j :: 0 <= j < |prev| ==> FieldOf(w, d.args[j].shift, d.args[j].size) == prev[j]
    requires forall j :: |prev| <= j < |d.args| ==> FieldOf(w, d.args[j].shift, d.args[j].size) == 0
    requires word == w + x * Pow2(d.args[|prev|].shift) && values == prev + [x]
    ensures word < 0x1_0000
    ensures forall j :: 0 <= j < |values| ==> FieldOf(word, d.args[j].shift, d.args[j].size) == values[j]
    ensures forall j :: |values| <= j < |d.args| ==> FieldOf(word, d.args[j].shift, d.args[j].size) == 0
  {
    var n := |prev|;
    var a := d.args[n];
    InsertField(w, x, a.shift, a.size);
    InsertBound(w, x, a.shift, a.size);
    forall j | 0 <= j < |d.args| && j != n
      ensures FieldOf(word, d.args[j].shift, d.args[j].size) == FieldOf(w, d.args[j].shift, d.args[j].size)
    {
      InsertElsewhere(w, x, a.shift, a.size, d.args[j].shift, d.args[j].size);
    }
  }

  /** Bits outside every operand field keep the base encoding's value. */
  lemma {:induction false} ComposeElsewhere(d: GI.InstrDef, values: seq<nat>, shift: nat, size: nat)
    requires GI.EntryValid(d) && |values| <= |d.args|
    requires forall j :: 0 <= j < |values| ==> values[j] < Pow2(d.args[j].size)
    requires forall j :: 0 <= j < |d.args| ==> Apart(d.args[j].shift, d.args[j].size, shift, size)
    ensures FieldOf(Compose(d.encoding, d.args, values), shift, size) == FieldOf(d.encoding, shift, size)
    decreases |values|
  {
    if values != [] {
      var n := |values| - 1;
      ComposeElsewhere(d, values[..n], shift, size);
      ComposeFields(d, values[..n]);
      var a := d.args[n];
      InsertElsewhere(Compose(d.encoding, d.args, values[..n]), values[n], a.shift, a.size, shift, size);
    }
  }

  /** What handling one line did: the error, if any; where the tokens of
   * the line end; the state. */
  datatype Done = Done(error: Option<AsmError>, next: nat, st: AsmState)

  /** `process_instruction` once the table entry is found: the operands,
   * then the word to `assembler_output_word`. An instruction without
   * arguments reads no separator. */
  function EncodeInstruction(toks: seq<Token>, i: nat, st: AsmState, d: GI.InstrDef, asWritten: bool): (r: Done)
    requires i <= |toks| && AsmTables.WellFormed(st) && GI.EntryValid(d)
    ensures i <= r.next <= |toks| && AsmTables.WellFormed(r.st) && AsmTables.Keeps(st, r.st)
  {
    var o := OperandsFrom(toks, i, st, d.args, 0, [], asWritten);
    match o.values
    case Err(e) => Done(Some(e), o.next, o.st)
    case Ok(values) =>
      OperandsFacts(toks, i, st, d.args, 0, [], asWritten);
      ComposeFields(d, values);
      var w := Compose(d.encoding, d.args, values);
      AsmTables.OutputWordBytes(o.st, w);
      Done(None, o.next, AsmTables.OutputWordSpec(o.st, w).1)
  }

  /** Every operand is in its field of the word. */
  predicate Holds(w: nat, d: GI.InstrDef, values: seq<nat>)
  {
    |values| == |d.args| &&
    forall k :: 0 <= k < |values| ==> FieldOf(w, d.args[k].shift, d.args[k].size) == values[k]
  }

  /** An instruction is accepted exactly when its operands are; it then
   * emits one word that holds every operand in its field and the base
   * encoding everywhere else, and in the second pass writes it high byte
   * first. */
  lemma InstructionWord(toks: seq<Token>, i: nat, st: AsmState, d: GI.InstrDef, asWritten: bool)
    requires i <= |toks| && AsmTables.WellFormed(st) && GI.EntryValid(d)
    ensures var o := OperandsFrom(toks, i, st, d.args, 0, [], asWritten);
      var r := EncodeInstruction(toks, i, st, d, asWritten);
      (r.error.None? <==> o.values.Ok?) &&
      (o.values.Ok? ==>
        var w := Compose(d.encoding, d.args, o.values.value);
        w < 0x1_0000 && Holds(w, d, o.values.value) &&
        (forall shift: nat, size: nat ::
          (forall j :: 0 <= j < |d.args| ==> Apart(d.args[j].shift, d.args[j].size, shift, size)) ==>
          FieldOf(w, shift, size) == FieldOf(d.encoding, shift, size)) &&
        (st.pass == AsmTables.Second ==>
          |r.st.output| == |st.output| + 2 &&
          r.st.output[|st.output|].value * 0x100 + r.st.output[|st.output| + 1].value == w))
  {
    var o := OperandsFrom(toks, i, st, d.args, 0, [], asWritten);
    if o.values.Ok? {
      var values := o.values.value;
      OperandsFacts(toks, i, st, d.args, 0, [], asWritten);
      ComposeFields(d, values);
      var w := Compose(d.encoding, d.args, values);
      forall shift: nat, size: nat |
        (forall j :: 0 <= j < |d.args| ==> Apart(d.args[j].shift, d.args[j].size, shift, size))
        ensures FieldOf(w, shift, size) == FieldOf(d.encoding, shift, size)
      {
        ComposeElsewhere(d, values, shift, size);
      }
      AsmTables.OutputWordBytes(o.st, w);
    }
  }

  /** The first table entry with a mnemonic, from entry `from` on. */
  function FindInstruction(table: seq<GI.InstrDef>, name: string, from: nat): (r: Option<nat>)
    requires from <= |table|
    ensures r.Some? ==> (from <= r.value < |table| && table[r.value].mnemonic == name &&
      forall k :: from <= k < r.value ==> table[k].mnemonic != name)
    ensures r.None? ==> forall k :: from <= k < |table| ==> table[k].mnemonic != name
    decreases |table| - from
  {
    if from == |table| then None
    else if table[from].mnemonic == name then Some(from)
    else FindInstruction(table, name, from + 1)
  }

  /** `process_instruction` for a mnemonic that does not start with `.`. */
  function Instruction(table: seq<GI.InstrDef>, toks: seq<Token>, i: nat, st: AsmState, name: string, asWritten: bool): (r: Done)
    requires TableValid(table) && i <= |toks| && AsmTables.WellFormed(st)
    ensures i <= r.next <= |toks| && AsmTables.WellFormed(r.st) && AsmTables.Keeps(st, r.st)
  {
    match FindInstruction(table, name, 0)
    case None => Done(Some(InvalidInstruction(name)), i, st)
    case Some(k) => EncodeInstruction(toks, i, st, table[k], asWritten)
  }

  // ---------------------------------------------------- pseudo-instructions

  /** The text of a string token as a C string: up to its first zero byte. */
  function CText(bytes: seq<Byte>): (s: string)
    ensures |s| <= |bytes|
    ensures forall k :: 0 <= k < |s| ==> s[k] as int == bytes[k] != 0
  {
    if bytes == [] || bytes[0] == 0 then [] else [bytes[0] as char] + CText(bytes[1..])
  }

  /** What a line asks of the loop: stop with an error, go on at `next`,
   * or assemble an included file and then go on at `next`. */
  datatype Step =
    | Stop(error: AsmError, st: AsmState)
    | Continue(next: nat, st: AsmState)
    | IncludeFile(path: string, next: nat, st: AsmState)

  /** A step that keeps what a pass keeps and moves past position `i`. */
  predicate Forward(r: Step, i: nat, toks: seq<Token>, st: AsmState)
  {
    AsmTables.WellFormed(r.st) && AsmTables.Keeps(st, r.st) &&
    (r.Continue? ==> i < r.next <= |toks|) &&
    (r.IncludeFile? ==> i < r.next <= |toks| && r.st == st)
  }

  function DataStep(o: PseudoOps.Outcome): Step
  {
    if o.ok then Continue(o.next, o.st) else Stop(DataRejected, o.st)
  }

  /** The string operand of `.include` and `.section` at `i`, and the end
   * of the line after it. */
  function StringOperand(toks: seq<Token>, i: nat): (r: Result<string, AsmError>)
    requires i <= |toks|
    ensures r.Ok? ==> At(toks, i).Str?
  {
    match At(toks, i)
    case ErrorToken => Err(TokenError)
    case Str(bytes) =>
      if PseudoOps.ParseSep(At(toks, i + 1), false) == PseudoOps.SepError then Err(SeparatorRejected)
      else Ok(CText(bytes))
    case _ => Err(ExpectedString)
  }

  /** `process_pseudo_instruction` on the tokens from `i`, after the
   * mnemonic at `i - 1`. */
  function Pseudo(toks: seq<Token>, i: nat, st: AsmState, name: string, asWritten: bool): (r: Step)
    requires 0 < i <= |toks| && AsmTables.WellFormed(st)
    ensures Forward(r, i - 1, toks, st)
  {
    if name == ".db" then
      PseudoOps.DbKeeps(toks, i, st, asWritten);
      DataStep(PseudoOps.Db(toks, i, st, asWritten))
    else if name == ".dw" then
      PseudoOps.DwKeeps(toks, i, st, asWritten);
      DataStep(PseudoOps.Dw(toks, i, st, asWritten))
    else if name == ".dd" then
      PseudoOps.DdKeeps(toks, i, st, asWritten);
      DataStep(PseudoOps.Dd(toks, i, st, asWritten))
    else if name == ".include" then
      match StringOperand(toks, i)
      case Err(e) => Stop(e, st)
      case Ok(path) => IncludeFile(path, Consume(toks, i + 1), st)
    else if name == ".section" then
      match StringOperand(toks, i)
      case Err(e) => Stop(e, st)
      case Ok(section) =>
        AsmTables.EnterSectionKeepsCounters(st, section);
        var (ok, st1) := AsmTables.EnterSectionSpec(st, section);
        if ok then Continue(Consume(toks, i + 1), st1) else Stop(SectionRejected, st1)
    else Stop(InvalidPseudoInstruction(name), st)
  }

  /** A line that starts with the identifier `name` at `i`: a label when
   * `:` follows, else a pseudo-instruction when it starts with `.`, else
   * an instruction. */
  function Statement(table: seq<GI.InstrDef>, toks: seq<Token>, i: nat, st: AsmState, name: string, asWritten: bool): (r: Step)
    requires TableValid(table) && i < |toks| && AsmTables.WellFormed(st)
    ensures Forward(r, i, toks, st)
  {
    if At(toks, i + 1) == Char(':') then
      var (ok, st1) := AsmTables.DefineSymbolSpec(st, name);
      if ok then Continue(i + 2, st1) else Stop(LabelRejected, st1)
    else if |name| > 0 && name[0] == '.' then
      Pseudo(toks, i + 1, st, name, asWritten)
    else
      var d := Instruction(table, toks, i + 1, st, name, asWritten);
      if d.error.Some? then Stop(d.error.value, d.st) else Continue(d.next, d.st)
  }

  // ---------------------------------------------------------- the loop

  /** The end of assembling a file: the error that stopped it, if any,
   * and the state. */
  datatype Assembled = Assembled(error: Option<AsmError>, st: AsmState)

  /** `assemble` on one file's tokens: the current section becomes
   * `.text` (an `assert` checks that it exists), then the lines. The
   * files `.include` may open are `files`; `depth` bounds the nesting of
   * includes. */
  function Assemble(files: map<string, seq<Token>>, table: seq<GI.InstrDef>, toks: seq<Token>, st: AsmState, depth: nat, asWritten: bool): (r: Assembled)
    requires TableValid(table) && AsmTables.WellFormed(st)
    ensures AsmTables.WellFormed(r.st) && AsmTables.Keeps(st, r.st)
    decreases depth, |toks| + 1
  {
    match AsmTables.FindSection(st.sections, AsmTables.DefaultSectionName)
    case None => Assembled(Some(AssertionFailed), st)
    case Some(k) => Lines(files, table, toks, 0, st.(current := k), depth, asWritten)
  }

  /** The loop of `assemble` from position `i`: empty lines are skipped and
   * a line starting with an identifier is a statement; the end of the file
   * ends the loop with success and anything else is an error. An included
   * file is assembled in place and the current section restored after
   * it. */
  function Lines(files: map<string, seq<Token>>, table: seq<GI.InstrDef>, toks: seq<Token>, i: nat, st: AsmState, depth: nat, asWritten: bool): (r: Assembled)
    requires TableValid(table) && i <= |toks| && AsmTables.WellFormed(st)
    ensures AsmTables.WellFormed(r.st) && AsmTables.Keeps(st, r.st)
    decreases depth, |toks| - i
  {
    match At(toks, i)
    case ErrorToken => Assembled(Some(TokenError), st)
    case EofToken => Assembled(None, st)
    case EolToken => Lines(files, table, toks, i + 1, st, depth, asWritten)
    case Identifier(name) =>
      (match Statement(table, toks, i, st, name, asWritten)
       case Stop(e, st1) => Assembled(Some(e), st1)
       case Continue(next, st1) => Lines(files, table, toks, next, st1, depth, asWritten)
       case IncludeFile(path, next, _) =>
         (match Include(files, table, path, st, depth, asWritten)
          case Some(inner) =>
            if inner.error.Some? then inner
            else Lines(files, table, toks, next, inner.st, depth, asWritten)
          case None => Assembled(Some(if path in files then IncludeTooDeep else CannotOpen(path)), st)))
    case _ => Assembled(Some(ExpectedIdentifier), st)
  }

  /** `process_include` once the path is read: the file is assembled with
   * the current section saved and restored around it; `None` when it
   * cannot be opened or the nesting bound is reached. */
  function Include(files: map<string, seq<Token>>, table: seq<GI.InstrDef>, path: string, st: AsmState, depth: nat, asWritten: bool): (r: Option<Assembled>)
    requires TableValid(table) && AsmTables.WellFormed(st)
    ensures r.Some? ==> AsmTables.WellFormed(r.value.st) && AsmTables.Keeps(st, r.value.st) && r.value.st.current == st.current
    ensures r.None? <==> path !in files || depth == 0
    decreases depth, 0
  {
    if path !in files || depth == 0 then None
    else
      var inner := Assemble(files, table, files[path], st, depth - 1, asWritten);
      Some(Assembled(inner.error, inner.st.(current := st.current)))
  }

  /** `assemble_multiple_files`: the files in order, stopping at the first
   * that cannot be opened or fails. */
  function AssembleFiles(files: map<string, seq<Token>>, table: seq<GI.InstrDef>, paths: seq<string>, st: AsmState, depth: nat, asWritten: bool): (r: Assembled)
    requires TableValid(table) && AsmTables.WellFormed(st)
    ensures AsmTables.WellFormed(r.st) && AsmTables.Keeps(st, r.st)
    decreases |paths|
  {
    if paths == [] then Assembled(None, st)
    else if paths[0] !in files then Assembled(Some(CannotOpen(paths[0])), st)
    else
      var r := Assemble(files, table, files[paths[0]], st, depth, asWritten);
      if r.error.Some? then r
      else AssembleFiles(files, table, paths[1..], r.st, depth, asWritten)
  }

  // ------------------------------------------------------------- methods

  /** The table walk of `process_instruction`. */
  method LookupInstruction(table: seq<GI.InstrDef>, name: string) returns (r: Option<nat>)
    ensures r == FindInstruction(table, name, 0)
  {
    var k := 0;
    while k < |table|
      invariant k <= |table|
      invariant FindInstruction(table, name, 0) == FindInstruction(table, name, k)
    {
      if table[k].mnemonic == name {
        return Some(k);
      }
      k := k + 1;
    }
    return None;
  }

  /** The argument loop of `process_instruction` and the output of the
   * word: `encoding` gathers the operands field by field. */
  method EmitInstruction(asm: AsmTables.Assembler, toks: seq<Token>, start: nat, d: GI.InstrDef) returns (error: Option<AsmError>, next: nat)
    requires asm.Valid() && start <= |toks| && GI.EntryValid(d)
    modifies asm
    ensures asm.Valid()
    ensures Done(error, next, asm.Snapshot()) == EncodeInstruction(toks, start, old(asm.Snapshot()), d, false)
  {
    var encoding: u16 := d.encoding;
    ghost var st0 := asm.Snapshot();
    ghost var values: seq<nat> := [];
    var i: nat := start;
    var k := 0;
    while k < |d.args|
      invariant k <= |d.args| && i <= |toks| && asm.Valid() && |values| == k
      invariant forall j :: 0 <= j < k ==> values[j] < Pow2(d.args[j].size)
      invariant encoding == Compose(d.encoding, d.args, values)
      invariant OperandsFrom(toks, start, st0, d.args, 0, [], false) ==
        OperandsFrom(toks, i, asm.Snapshot(), d.args, k, values, false)
    {
      ghost var st := asm.Snapshot();
      var a := d.args[k];
      var value, after := ReadOperand(asm, toks, i, a);
      if value.Err? {
        EncodeFails(toks, start, st0, d);
        return Some(value.error), after;
      }
      FieldFits(d, k, value.value);
      OperandsStep(toks, i, st, d.args, k, values, value.value, after, asm.Snapshot());
      ComposeNext(d, values, value.value);
      encoding := encoding + value.value * Pow2(a.shift);
      next := Consume(toks, after);
      var sep := Separator(At(toks, after), k + 1 == |d.args|);
      if sep.Some? {
        EncodeFails(toks, start, st0, d);
        return sep, next;
      }
      values := values + [value.value];
      i := next;
      k := k + 1;
    }
    EncodeSucceeds(toks, start, st0, d, values, i, asm.Snapshot());
    var address := asm.OutputWord(encoding);
    return None, i;
  }

  /** The operand loop's outcome decides `EncodeInstruction`'s. */
  lemma EncodeFails(toks: seq<Token>, i: nat, st: AsmState, d: GI.InstrDef)
    requires i <= |toks| && AsmTables.WellFormed(st) && GI.EntryValid(d)
    requires OperandsFrom(toks, i, st, d.args, 0, [], false).values.Err?
    ensures var o := OperandsFrom(toks, i, st, d.args, 0, [], false);
      EncodeInstruction(toks, i, st, d, false) == Done(Some(o.values.error), o.next, o.st)
  {
  }

  lemma EncodeSucceeds(toks: seq<Token>, i: nat, st: AsmState, d: GI.InstrDef, values: seq<nat>, next: nat, st1: AsmState)
    requires i <= |toks| && AsmTables.WellFormed(st) && GI.EntryValid(d) && |values| == |d.args|
    requires forall j :: 0 <= j < |values| ==> values[j] < Pow2(d.args[j].size)
    requires OperandsFrom(toks, i, st, d.args, 0, [], false) == Operands(Ok(values), next, st1)
    ensures AsmTables.WellFormed(st1) && Compose(d.encoding, d.args, values) < 0x1_0000
    ensures EncodeInstruction(toks, i, st, d, false) == Done(None, next, AsmTables.OutputWordSpec(st1, Compose(d.encoding, d.args, values)).1)
  {
    ComposeFields(d, values);
  }

  /** Adding the next operand, which fits its field: the word is the next
   * prefix's composition and stays a 16-bit word. */
  lemma ComposeNext(d: GI.InstrDef, values: seq<nat>, v: nat)
    requires GI.EntryValid(d) && |values| < |d.args|
    requires forall j :: 0 <= j < |values| ==> values[j] < Pow2(d.args[j].size)
    requires v < Pow2(d.args[|values|].size)
    ensures Compose(d.encoding, d.args, values + [v]) == Compose(d.encoding, d.args, values) + v * Pow2(d.args[|values|].shift)
    ensures Compose(d.encoding, d.args, values + [v]) < 0x1_0000
    ensures forall j :: 0 <= j < |values| + 1 ==> (values + [v])[j] < Pow2(d.args[j].size)
  {
    assert (values + [v])[..|values|] == values;
    ComposeFields(d, values + [v]);
  }

  /** A register operand fits the 3-bit field of a valid entry. */
  lemma FieldFits(d: GI.InstrDef, k: nat, v: nat)
    requires GI.EntryValid(d) && k < |d.args|
    requires d.args[k].kind in {GI.Gpr, GI.Cr} ==> v < 8
    requires d.args[k].kind !in {GI.Gpr, GI.Cr} ==> v < Pow2(d.args[k].size)
    ensures v < Pow2(d.args[k].size) && d.args[k].shift + d.args[k].size <= 16
  {
    Pow2Values();
  }

  /** One turn of the argument loop once the operand is read. */
  lemma OperandsStep(toks: seq<Token>, i: nat, st: AsmState, args: seq<GI.ArgDef>, k: nat, done: seq<nat>,
                     v: nat, after: nat, st1: AsmState)
    requires i <= |toks| && k < |args| && AsmTables.WellFormed(st)
    requires OperandAt(toks, i, st, args[k], false) == Operand(Ok(v), after, st1)
    requires v < Pow2(args[k].size) && args[k].shift + args[k].size <= 16
    ensures var n := Consume(toks, after);
      OperandsFrom(toks, i, st, args, k, done, false) ==
        match Separator(At(toks, after), k + 1 == |args|)
        case Some(e) => Operands(Err(e), n, st1)
        case None => OperandsFrom(toks, n, st1, args, k + 1, done + [v], false)
  {
    DivModUnique(v, Pow2(args[k].size), 0, v);
  }

  /** One operand, as `OperandAt` reads it, with the value fitting its
   * field. */
  method ReadOperand(asm: AsmTables.Assembler, toks: seq<Token>, i: nat, a: GI.ArgDef) returns (value: Result<nat, AsmError>, next: nat)
    requires asm.Valid() && i <= |toks|
    modifies asm
    ensures asm.Valid()
    ensures Operand(value, next, asm.Snapshot()) == OperandAt(toks, i, old(asm.Snapshot()), a, false)
    ensures value.Ok? && a.kind in {GI.Gpr, GI.Cr} ==> value.value < 8
    ensures value.Ok? && a.kind !in {GI.Gpr, GI.Cr} ==> value.value < Pow2(a.size)
  {
    next := Consume(toks, i);
    if a.kind == GI.Gpr {
      var g := ParseGpr(At(toks, i));
      value := if g < 0 then Err(ExpectedRegister) else Ok(g);
    } else if a.kind == GI.Cr {
      var c := ParseCr(At(toks, i));
      value := if c < 0 then Err(ExpectedControlRegister) else Ok(c);
    } else {
      var e;
      e, next := CExpressions.Evaluate(asm, toks, i);
      if e.Err? {
        value := Err(if e.error == CExpressions.AssertionFailure then AssertionFailed else ExpressionFailed);
      } else {
        value := NumberForInstruction(e.value, a.kind == GI.Signed, a.size, false);
        NumberForInstructionMeaning(e.value, a.kind == GI.Signed, a.size);
      }
    }
  }

  /** A step without its state: what the methods return. */
  datatype Action = Halt(error: AsmError) | Go(next: nat) | Open(path: string, next: nat)

  function ActionOf(s: Step): Action
  {
    match s
    case Stop(e, _) => Halt(e)
    case Continue(next, _) => Go(next)
    case IncludeFile(path, next, _) => Open(path, next)
  }

  /** `process_pseudo_instruction`. */
  method ProcessPseudo(asm: AsmTables.Assembler, toks: seq<Token>, i: nat, name: string) returns (r: Action)
    requires asm.Valid() && 0 < i <= |toks|
    modifies asm
    ensures asm.Valid()
    ensures r == ActionOf(Pseudo(toks, i, old(asm.Snapshot()), name, false))
    ensures asm.Snapshot() == Pseudo(toks, i, old(asm.Snapshot()), name, false).st
  {
    if name == ".db" {
      var ok, next := PseudoOps.ProcessDb(asm, toks, i);
      r := if ok then Go(next) else Halt(DataRejected);
    } else if name == ".dw" {
      var ok, next := PseudoOps.ProcessDw(asm, toks, i);
      r := if ok then Go(next) else Halt(DataRejected);
    } else if name == ".dd" {
      var ok, next := PseudoOps.ProcessDd(asm, toks, i);
      r := if ok then Go(next) else Halt(DataRejected);
    } else if name == ".include" || name == ".section" {
      var operand := StringOperand(toks, i);
      if operand.Err? {
        r := Halt(operand.error);
      } else if name == ".include" {
        r := Open(operand.value, Consume(toks, i + 1));
      } else {
        var ok := asm.EnterSection(operand.value);
        r := if ok then Go(Consume(toks, i + 1)) else Halt(SectionRejected);
      }
    } else {
      r := Halt(InvalidPseudoInstruction(name));
    }
  }

  /** A line starting with the identifier `name` at `i`: `define_symbol`,
   * `process_pseudo_instruction` or the rest of `process_instruction`. */
  method ProcessStatement(asm: AsmTables.Assembler, table: seq<GI.InstrDef>, toks: seq<Token>, i: nat, name: string) returns (r: Action)
    requires asm.Valid() && TableValid(table) && i < |toks|
    modifies asm
    ensures asm.Valid()
    ensures r == ActionOf(Statement(table, toks, i, old(asm.Snapshot()), name, false))
    ensures asm.Snapshot() == Statement(table, toks, i, old(asm.Snapshot()), name, false).st
  {
    if At(toks, i + 1) == Char(':') {
      var ok := asm.DefineSymbol(name);
      r := if ok then Go(i + 2) else Halt(LabelRejected);
    } else if |name| > 0 && name[0] == '.' {
      r := ProcessPseudo(asm, toks, i + 1, name);
    } else {
      var found := LookupInstruction(table, name);
      if found.None? {
        r := Halt(InvalidInstruction(name));
      } else {
        var error, next := EmitInstruction(asm, toks, i + 1, table[found.value]);
        r := if error.Some? then Halt(error.value) else Go(next);
      }
    }
  }

  /** `assemble`, with `.include` assembling its file by a nested call. */
  method AssembleTokens(asm: AsmTables.Assembler, files: map<string, seq<Token>>, table: seq<GI.InstrDef>, toks: seq<Token>, depth: nat)
    returns (error: Option<AsmError>)
    requires asm.Valid() && TableValid(table)
    modifies asm
    ensures asm.Valid()
    ensures Assembled(error, asm.Snapshot()) == Assemble(files, table, toks, old(asm.Snapshot()), depth, false)
    decreases depth
  {
    var text := asm.LookupSection(AsmTables.DefaultSectionName);
    if text.None? {
      return Some(AssertionFailed);
    }
    asm.current := text.value;
    var i: nat := 0;
    while true
      invariant asm.Valid() && i <= |toks|
      invariant Assemble(files, table, toks, old(asm.Snapshot()), depth, false) ==
        Lines(files, table, toks, i, asm.Snapshot(), depth, false)
      decreases |toks| - i
    {
      var t := At(toks, i);
      if t == ErrorToken {
        return Some(TokenError);
      } else if t == EofToken {
        return None;
      } else if t == EolToken {
        i := i + 1;
      } else if !t.Identifier? {
        return Some(ExpectedIdentifier);
      } else {
        ghost var st := asm.Snapshot();
        var action := ProcessStatement(asm, table, toks, i, t.text);
        if action.Halt? {
          return Some(action.error);
        } else if action.Go? {
          i := action.next;
        } else {
          if action.path !in files {
            return Some(CannotOpen(action.path));
          } else if depth == 0 {
            return Some(IncludeTooDeep);
          }
          var saved := asm.current;
          var inner := AssembleTokens(asm, files, table, files[action.path], depth - 1);
          asm.current := saved;
          if inner.Some? {
            return inner;
          }
          i := action.next;
        }
      }
    }
  }

  /** `assemble_multiple_files`. */
  method AssembleMultipleFiles(asm: AsmTables.Assembler, files: map<string, seq<Token>>, table: seq<GI.InstrDef>, paths: seq<string>, depth: nat)
    returns (error: Option<AsmError>)
    requires asm.Valid() && TableValid(table)
    modifies asm
    ensures asm.Valid()
    ensures Assembled(error, asm.Snapshot()) == AssembleFiles(files, table, paths, old(asm.Snapshot()), depth, false)
  {
    var k := 0;
    while k < |paths|
      invariant k <= |paths| && asm.Valid()
      invariant AssembleFiles(files, table, paths, old(asm.Snapshot()), depth, false) ==
        AssembleFiles(files, table, paths[k..], asm.Snapshot(), depth, false)
    {
      assert paths[k..][1..] == paths[k + 1..];
      if paths[k] !in files {
        return Some(CannotOpen(paths[k]));
      }
      error := AssembleTokens(asm, files, table, files[paths[k]], depth);
      if error.Some? {
        return error;
      }
      k := k + 1;
    }
    return None;
  }
}
