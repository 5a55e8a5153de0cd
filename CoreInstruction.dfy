/** The 16-bit instruction word codec of `toolchain_core`: register and
 * control-register operands, `Instruction::encode` and `Instruction::decode`.
 *
 * A word is split into four nibbles `d b a l` (bits 15-12, 11-8, 7-4, 3-0).
 * The bit-wise OR of disjoint shifted fields is written as a sum. */
module CoreInstruction {
  import opened Wrappers
  import DecimalText

  type u16 = x: int | 0 <= x < 0x1_0000
  type u4 = x: int | 0 <= x < 16
  type u8 = x: int | 0 <= x < 256
  type i8 = x: int | -128 <= x < 128
  type i4 = x: int | -8 <= x < 8

  /** A general purpose register index `Reg(u16)`, valid below 16. */
  datatype Reg = Reg(index: u4)

  function RegTryFrom(v: u16): (r: Result<Reg, ()>)
    ensures r.Ok? <==> v < 16
    ensures r.Ok? ==> r.value.index == v
  {
    if v < 16 then Ok(Reg(v)) else Err(())
  }

  /** `Display for Reg`: `r` followed by the decimal index. */
  function RegText(r: Reg): string
  {
    "r" + DecimalText.DecString(r.index)
  }

  /** `FromStr for Reg`: strip the `r`, parse a `u16`, then range check. */
  function RegFromStr(s: string): (r: Result<Reg, ()>)
    ensures r.Ok? ==> |s| >= 2 && s[0] == 'r'
  {
    if |s| > 0 && s[0] == 'r' then
      match DecimalText.ParseU16(s[1..])
      case Some(n) => RegTryFrom(n)
      case None => Err(())
    else Err(())
  }

  lemma RegTextRoundTrip(r: Reg)
    ensures RegFromStr(RegText(r)) == Ok(r)
  {
    var t := RegText(r);
    assert t[1..] == DecimalText.DecString(r.index);
    DecimalText.ParseU16DecString(r.index);
  }

  lemma RegFromStrRejectsExamples()
    ensures RegFromStr("xxxx").Err? && RegFromStr("rx").Err?
    ensures RegFromStr("r99").Err? && RegFromStr("s0").Err?
  {
    assert "rx"[1..] == "x";
    assert "r99"[1..] == "99";
    assert DecimalText.DigitsValue("99") == 99 by {
      assert "99"[..1] == "9";
      assert "9"[..0] == "";
    }
  }

  datatype ControlRegister =
    | Display | CpuStatus | ContextID | IntCause | IntBase | IntPc | MMUAddr | MMUData

  function CrToU16(cr: ControlRegister): (v: u16)
    ensures v < 8
  {
    match cr
    case Display => 0 case CpuStatus => 1 case ContextID => 2 case IntCause => 3
    case IntBase => 4 case IntPc => 5 case MMUAddr => 6 case MMUData => 7
  }

  /** `ControlRegister::try_from_primitive`. */
  function CrTryFrom(v: u16): (r: Option<ControlRegister>)
    ensures r.Some? <==> v < 8
    ensures r.Some? ==> CrToU16(r.value) == v
  {
    match v
    case 0 => Some(Display) case 1 => Some(CpuStatus) case 2 => Some(ContextID)
    case 3 => Some(IntCause) case 4 => Some(IntBase) case 5 => Some(IntPc)
    case 6 => Some(MMUAddr) case 7 => Some(MMUData) case _ => None
  }

  lemma CrU16RoundTrip(cr: ControlRegister)
    ensures CrTryFrom(CrToU16(cr)) == Some(cr)
  {
  }

  /** `Display` prints the variant name (`{:?}`). */
  function CrName(cr: ControlRegister): string
  {
    match cr
    case Display => "Display" case CpuStatus => "CpuStatus" case ContextID => "ContextID"
    case IntCause => "IntCause" case IntBase => "IntBase" case IntPc => "IntPc"
    case MMUAddr => "MMUAddr" case MMUData => "MMUData"
  }

  /** `EnumString`: exact, case-sensitive variant names. */
  function CrFromStr(s: string): (r: Option<ControlRegister>)
    ensures r.Some? ==> CrName(r.value) == s
  {
    if s == "Display" then Some(Display)
    else if s == "CpuStatus" then Some(CpuStatus)
    else if s == "ContextID" then Some(ContextID)
    else if s == "IntCause" then Some(IntCause)
    else if s == "IntBase" then Some(IntBase)
    else if s == "IntPc" then Some(IntPc)
    else if s == "MMUAddr" then Some(MMUAddr)
    else if s == "MMUData" then Some(MMUData)
    else None
  }

  lemma CrNameRoundTrip(cr: ControlRegister)
    ensures CrFromStr(CrName(cr)) == Some(cr)
  {
  }

  lemma CrFromStrRejectsLowercase(s: string)
    requires |s| > 0 && 'a' <= s[0] <= 'z'
    ensures CrFromStr(s) == None
  {
  }

  datatype Instruction =
    | Add(rd: Reg, ra: Reg, rb: Reg)
    | Sub(rd: Reg, ra: Reg, rb: Reg)
    | And(rd: Reg, ra: Reg, rb: Reg)
    | Or(rd: Reg, ra: Reg, rb: Reg)
    | Xor(rd: Reg, ra: Reg, rb: Reg)
    | Pack(rd: Reg, ra: Reg, rb: Reg)
    | Bcmp(rd: Reg, ra: Reg, rb: Reg)
    | Jalr(rd: Reg, offset: i8)
    | Addi(rd: Reg, v: i8)
    | Bz(rd: Reg, offset: i8)
    | Bnz(rd: Reg, offset: i8)
    | Ld(rd: Reg, addr: Reg, offset4: i4)
    | St(val: Reg, addr: Reg, offset4: i4)
    | Bc(offset: i8)
    | Bnc(offset: i8)
    | Addc(rd: Reg, rb: Reg)
    | Subc(rd: Reg, rb: Reg)
    | AddC(rd: Reg, rb: Reg)
    | Shr(rd: Reg, rb: Reg)
    | Shrc(rd: Reg, rb: Reg)
    | Shra(rd: Reg, rb: Reg)
    | Shr8(rd: Reg, rb: Reg)
    | Jal(rd: Reg, addr: Reg)
    | Ldp(rd: Reg, addr: Reg)
    | Ldi(rd: Reg)
    | StC(rd: Reg, addr: Reg)
    | Andi(rd: Reg, v4: i4)
    | Ori(rd: Reg, v4: i4)
    | Xori(rd: Reg, v4: i4)
    | Ldcr(rd: Reg, cr: ControlRegister)
    | Stcr(val: Reg, cr: ControlRegister)
    | Syscall(code: u4)
    | Reti
    | Break

  /** The word with nibbles `d b a l`, most significant first. */
  function Nibbles(d: u4, b: u4, a: u4, l: u4): u16
  {
    ((d * 16 + b) * 16 + a) * 16 + l
  }

  /** `to_nibbles`: `v >> 12`, `(v >> 8) & 0xf`, `(v >> 4) & 0xf`, `v & 0xf`. */
  function ToNibbles(w: u16): (n: (u4, u4, u4, u4))
    ensures Nibbles(n.0, n.1, n.2, n.3) == w
  {
    (w / 16 / 16 / 16, w / 16 / 16 % 16, w / 16 % 16, w % 16)
  }

  lemma DivMod16(q: int, r: int)
    requires 0 <= r < 16
    ensures (q * 16 + r) / 16 == q && (q * 16 + r) % 16 == r
  {
  }

  lemma NibblesRoundTrip(d: u4, b: u4, a: u4, l: u4)
    ensures ToNibbles(Nibbles(d, b, a, l)) == (d, b, a, l)
  {
    DivMod16((d * 16 + b) * 16 + a, l);
    DivMod16(d * 16 + b, a);
    DivMod16(d, b);
  }

  lemma AllNibblesRoundTrip()
    ensures forall d: u4, b: u4, a: u4, l: u4 {:trigger Nibbles(d, b, a, l)} ::
      ToNibbles(Nibbles(d, b, a, l)) == (d, b, a, l)
  {
    forall d: u4, b: u4, a: u4, l: u4 { NibblesRoundTrip(d, b, a, l); }
  }

  /** `v as u8` for an `i8`: two's complement reinterpretation. */
  function I8AsU8(v: i8): (r: u8)
    ensures r % 256 == (v + 256) % 256
  {
    if v < 0 then v + 256 else v
  }

  /** `x as i8` for a `u8`. */
  function U8AsI8(x: u8): (r: i8)
    ensures I8AsU8(r) == x
  {
    if x >= 128 then x - 256 else x
  }

  /** `(i8::from(v) as u16) & 0xf`: the low four bits of an `i4`. */
  function I4Bits(v: i4): (r: u4)
    ensures r == (v + 16) % 16
  {
    if v < 0 then v + 16 else v
  }

  /** `u4_bits_to_i4`: shift into the top of a byte, reinterpret as `i8`,
   * shift back arithmetically. */
  function U4BitsToI4(x: u4): (r: i4)
    ensures I4Bits(r) == x
    ensures r == if x >= 8 then x - 16 else x
  {
    U8AsI8(x * 16) / 16
  }

  function EncodeRrr(rd: Reg, rb: Reg, ra: Reg, opcode: u4): u16
  {
    Nibbles(rd.index, rb.index, ra.index, opcode)
  }

  /** Low nibble of the immediate in bits 8-11, high nibble in bits 4-7. */
  function EncodeR8(rd: Reg, v: i8, opcode: u4): u16
  {
    Nibbles(rd.index, I8AsU8(v) % 16, I8AsU8(v) / 16, opcode)
  }

  function EncodeRr4(rd: Reg, rb: Reg, v: i4, opcode: u4): u16
  {
    Nibbles(rd.index, rb.index, I4Bits(v), opcode)
  }

  /** The immediate fills the top byte. */
  function Encode8(v: i8, opcodeH: u4, opcodeL: u4): u16
  {
    Nibbles(I8AsU8(v) / 16, I8AsU8(v) % 16, opcodeH, opcodeL)
  }

  function EncodeRr(rd: Reg, rb: Reg, opcodeH: u4, opcodeL: u4): u16
  {
    Nibbles(rd.index, rb.index, opcodeH, opcodeL)
  }

  function EncodeR4u(rd: Reg, v: u16, opcodeH: u4, opcodeL: u4): u16
  {
    Nibbles(rd.index, v % 16, opcodeH, opcodeL)
  }

  function EncodeR4(rd: Reg, v: i4, opcodeH: u4, opcodeL: u4): u16
  {
    EncodeR4u(rd, I4Bits(v), opcodeH, opcodeL)
  }

  /** `Instruction::encode`. */
  function Encode(i: Instruction): u16
  {
    match i
    case Add(rd, ra, rb) => EncodeRrr(rd, rb, ra, 0)
    case Sub(rd, ra, rb) => EncodeRrr(rd, rb, ra, 1)
    case And(rd, ra, rb) => EncodeRrr(rd, rb, ra, 2)
    case Or(rd, ra, rb) => EncodeRrr(rd, rb, ra, 3)
    case Xor(rd, ra, rb) => EncodeRrr(rd, rb, ra, 4)
    case Pack(rd, ra, rb) => EncodeRrr(rd, rb, ra, 5)
    case Bcmp(rd, ra, rb) => EncodeRrr(rd, rb, ra, 6)
    case Jalr(rd, offset) => EncodeR8(rd, offset, 7)
    case Addi(rd, v) => EncodeR8(rd, v, 9)
    case Bz(rd, offset) => EncodeR8(rd, offset, 10)
    case Bnz(rd, offset) => EncodeR8(rd, offset, 11)
    case Ld(rd, addr, offset) => EncodeRr4(rd, addr, offset, 12)
    case St(val, addr, offset) => EncodeRr4(val, addr, offset, 13)
    case Bc(offset) => Encode8(offset, 0, 14)
    case Bnc(offset) => Encode8(offset, 1, 14)
    case Addc(rd, rb) => EncodeRr(rd, rb, 2, 14)
    case Subc(rd, rb) => EncodeRr(rd, rb, 3, 14)
    case AddC(rd, rb) => EncodeRr(rd, rb, 4, 14)
    case Shr(rd, rb) => EncodeRr(rd, rb, 5, 14)
    case Shrc(rd, rb) => EncodeRr(rd, rb, 6, 14)
    case Shra(rd, rb) => EncodeRr(rd, rb, 7, 14)
    case Shr8(rd, rb) => EncodeRr(rd, rb, 8, 14)
    case Jal(rd, addr) => EncodeRr(rd, addr, 9, 14)
    case Ldp(rd, addr) => EncodeRr(rd, addr, 10, 14)
    case Ldi(rd) => EncodeR4(rd, 0, 11, 14)
    case StC(rd, addr) => EncodeRr(rd, addr, 12, 14)
    case Andi(rd, v) => EncodeR4(rd, v, 13, 14)
    case Ori(rd, v) => EncodeR4(rd, v, 14, 14)
    case Xori(rd, v) => EncodeR4(rd, v, 15, 14)
    case Ldcr(rd, cr) => EncodeR4u(rd, CrToU16(cr), 0, 15)
    case Stcr(val, cr) => EncodeR4u(val, CrToU16(cr), 1, 15)
    case Syscall(code) => EncodeR4u(Reg(0), code, 2, 15)
    case Reti => 0x3f
    case Break => 0xff
  }

  /** What `decode` does with a word: return a value, or panic. */
  datatype DecodeOutcome = Returns(result: Option<Instruction>) | Panics

  /** The `0b1110` opcode group, selected by the high opcode nibble `a`. */
  function DecodeGroupE(d: u4, b: u4, a: u4): (i: Instruction)
  {
    var rd, rb := Reg(d), Reg(b);
    var imm8bd := U8AsI8(d * 16 + b);
    var imm4b := U4BitsToI4(b);
    if a == 0 then Bc(imm8bd)
    else if a == 1 then Bnc(imm8bd)
    else if a == 2 then Addc(rd, rb)
    else if a == 3 then Subc(rd, rb)
    else if a == 4 then AddC(rd, rb)
    else if a == 5 then Shr(rd, rb)
    else if a == 6 then Shrc(rd, rb)
    else if a == 7 then Shra(rd, rb)
    else if a == 8 then Shr8(rd, rb)
    else if a == 9 then Jal(rd, rb)
    else if a == 10 then Ldp(rd, rb)
    else if a == 11 then Ldi(rd)
    else if a == 12 then StC(rd, rb)
    else if a == 13 then Andi(rd, imm4b)
    else if a == 14 then Ori(rd, imm4b)
    else Xori(rd, imm4b)
  }

  /** The `0b1111` opcode group as written: the control-register operand of
   * `ldcr`/`stcr` goes through `try_from_primitive(..).unwrap()`, which
   * panics for a nibble of 8 or more. */
  function DecodeGroupFAsWritten(d: u4, b: u4, a: u4): (r: DecodeOutcome)
    ensures r.Panics? <==> a <= 1 && b >= 8
    ensures r.Returns? && r.result.None? <==> 4 <= a <= 14
  {
    if a <= 1 then
      match CrTryFrom(b)
      case None => Panics
      case Some(cr) => Returns(Some(if a == 0 then Ldcr(Reg(d), cr) else Stcr(Reg(d), cr)))
    else if a == 2 then Returns(Some(Syscall(b)))
    else if a == 3 then Returns(Some(Reti))
    else if a <= 14 then Returns(None)
    else Returns(Some(Break))
  }

  /** `Instruction::decode` as written, on the four nibbles of the word. */
  function DecodeFieldsAsWritten(d: u4, b: u4, a: u4, l: u4): (r: DecodeOutcome)
    ensures r.Panics? <==> l == 15 && a <= 1 && b >= 8
    ensures r.Returns? && r.result.None? <==> l == 8 || (l == 15 && 4 <= a <= 14)
  {
    var rd, rb, ra := Reg(d), Reg(b), Reg(a);
    var imm8ba := U8AsI8(a * 16 + b);
    var imm4a := U4BitsToI4(a);
    if l == 0 then Returns(Some(Add(rd, ra, rb)))
    else if l == 1 then Returns(Some(Sub(rd, ra, rb)))
    else if l == 2 then Returns(Some(And(rd, ra, rb)))
    else if l == 3 then Returns(Some(Or(rd, ra, rb)))
    else if l == 4 then Returns(Some(Xor(rd, ra, rb)))
    else if l == 5 then Returns(Some(Pack(rd, ra, rb)))
    else if l == 6 then Returns(Some(Bcmp(rd, ra, rb)))
    else if l == 7 then Returns(Some(Jalr(rd, imm8ba)))
    else if l == 8 then Returns(None)
    else if l == 9 then Returns(Some(Addi(rd, imm8ba)))
    else if l == 10 then Returns(Some(Bz(rd, imm8ba)))
    else if l == 11 then Returns(Some(Bnz(rd, imm8ba)))
    else if l == 12 then Returns(Some(Ld(rd, rb, imm4a)))
    else if l == 13 then Returns(Some(St(rd, rb, imm4a)))
    else if l == 14 then Returns(Some(DecodeGroupE(d, b, a)))
    else DecodeGroupFAsWritten(d, b, a)
  }

  /** `Instruction::decode` as written. */
  function DecodeAsWritten(w: u16): DecodeOutcome
  {
    var n := ToNibbles(w);
    DecodeFieldsAsWritten(n.0, n.1, n.2, n.3)
  }

  /** The decoder with the evident intent for an out-of-range control
   * register: the word is not an instruction (`None`), as for every other
   * unused opcode. */
  function DecodeFields(d: u4, b: u4, a: u4, l: u4): (r: Option<Instruction>)
    ensures r.None? <==> l == 8 || (l == 15 && 4 <= a <= 14) || (l == 15 && a <= 1 && b >= 8)
    ensures DecodeFieldsAsWritten(d, b, a, l).Returns? ==> r == DecodeFieldsAsWritten(d, b, a, l).result
  {
    match DecodeFieldsAsWritten(d, b, a, l)
    case Returns(result) => result
    case Panics => None
  }

  /** `Instruction::decode`, corrected as `DecodeFields`. */
  function Decode(w: u16): Option<Instruction>
  {
    var n := ToNibbles(w);
    DecodeFields(n.0, n.1, n.2, n.3)
  }

  /** Which words are not instructions, and which words make the decoder as
   * written panic; everywhere else the two decoders agree. */
  lemma DecodeDomain(w: u16)
    ensures Decode(w).None? <==>
      (w % 16 == 8 || (w % 16 == 15 && 4 <= w / 16 % 16 <= 14)
       || (w % 16 == 15 && w / 16 % 16 <= 1 && w / 16 / 16 % 16 >= 8))
    ensures DecodeAsWritten(w).Panics? <==> (w % 16 == 15 && w / 16 % 16 <= 1 && w / 16 / 16 % 16 >= 8)
    ensures DecodeAsWritten(w).Returns? ==> Decode(w) == DecodeAsWritten(w).result
  {
  }

  lemma DecodeOfNibbles(d: u4, b: u4, a: u4, l: u4)
    ensures Decode(Nibbles(d, b, a, l)) == DecodeFields(d, b, a, l)
  {
    NibblesRoundTrip(d, b, a, l);
  }

  lemma I8RoundTrip(v: i8)
    ensures U8AsI8(I8AsU8(v)) == v
    ensures U8AsI8(I8AsU8(v) / 16 * 16 + I8AsU8(v) % 16) == v
  {
  }

  /** Instructions whose decoding ignores some bits of the word: `ldi`
   * ignores bits 8-11, `syscall` bits 12-15, `reti` and `break` bits 8-15. */
  predicate IgnoresFields(i: Instruction) { i.Ldi? || i.Syscall? || i.Reti? || i.Break? }

  /** `EncodedNibbles` for the three-register opcodes `0b0000`-`0b0110`. */
  lemma EncodedThreeRegister(i: Instruction) returns (d: u4, b: u4, a: u4, l: u4)
    requires i.Add? || i.Sub? || i.And? || i.Or? || i.Xor? || i.Pack? || i.Bcmp?
    ensures Encode(i) == Nibbles(d, b, a, l)
    ensures DecodeFields(d, b, a, l) == Some(i)
  {
    match i
    case Add(rd, ra, rb) =>
      d, b, a, l := rd.index, rb.index, ra.index, 0;
    case Sub(rd, ra, rb) =>
      d, b, a, l := rd.index, rb.index, ra.index, 1;
    case And(rd, ra, rb) =>
      d, b, a, l := rd.index, rb.index, ra.index, 2;
    case Or(rd, ra, rb) =>
      d, b, a, l := rd.index, rb.index, ra.index, 3;
    case Xor(rd, ra, rb) =>
      d, b, a, l := rd.index, rb.index, ra.index, 4;
    case Pack(rd, ra, rb) =>
      d, b, a, l := rd.index, rb.index, ra.index, 5;
    case Bcmp(rd, ra, rb) =>
      d, b, a, l := rd.index, rb.index, ra.index, 6;
    case _ => assert false;
  }

  /** `EncodedNibbles` for the 8-bit immediate opcodes `0b0111`-`0b1011`. */
  lemma EncodedImmediate(i: Instruction) returns (d: u4, b: u4, a: u4, l: u4)
    requires i.Jalr? || i.Addi? || i.Bz? || i.Bnz?
    ensures Encode(i) == Nibbles(d, b, a, l)
    ensures DecodeFields(d, b, a, l) == Some(i)
  {
    match i
    case Jalr(rd, v) =>
      I8RoundTrip(v);
      d, b, a, l := rd.index, I8AsU8(v) % 16, I8AsU8(v) / 16, 7;
    case Addi(rd, v) =>
      I8RoundTrip(v);
      d, b, a, l := rd.index, I8AsU8(v) % 16, I8AsU8(v) / 16, 9;
    case Bz(rd, v) =>
      I8RoundTrip(v);
      d, b, a, l := rd.index, I8AsU8(v) % 16, I8AsU8(v) / 16, 10;
    case Bnz(rd, v) =>
      I8RoundTrip(v);
      d, b, a, l := rd.index, I8AsU8(v) % 16, I8AsU8(v) / 16, 11;
  }

  /** `EncodedNibbles` for the loads and stores with a 4-bit offset,
   * opcodes `0b1100` and `0b1101`. */
  lemma EncodedMemory(i: Instruction) returns (d: u4, b: u4, a: u4, l: u4)
    requires i.Ld? || i.St?
    ensures Encode(i) == Nibbles(d, b, a, l)
    ensures DecodeFields(d, b, a, l) == Some(i)
  {
    match i
    case Ld(rd, addr, v) =>
      d, b, a, l := rd.index, addr.index, I4Bits(v), 12;
    case St(val, addr, v) =>
      d, b, a, l := val.index, addr.index, I4Bits(v), 13;
  }

  /** `EncodedNibbles` for the `0b1110` group, high opcodes `0b0000`-`0b0011`. */
  lemma EncodedGroupE0(i: Instruction) returns (d: u4, b: u4, a: u4, l: u4)
    requires i.Bc? || i.Bnc? || i.Addc? || i.Subc?
    ensures Encode(i) == Nibbles(d, b, a, l)
    ensures DecodeFields(d, b, a, l) == Some(i)
  {
    match i
    case Bc(v) =>
      I8RoundTrip(v);
      d, b, a, l := I8AsU8(v) / 16, I8AsU8(v) % 16, 0, 14;
    case Bnc(v) =>
      I8RoundTrip(v);
      d, b, a, l := I8AsU8(v) / 16, I8AsU8(v) % 16, 1, 14;
    case Addc(rd, rb) =>
      d, b, a, l := rd.index, rb.index, 2, 14;
    case Subc(rd, rb) =>
      d, b, a, l := rd.index, rb.index, 3, 14;
    case _ => assert false;
  }

  /** `EncodedNibbles` for the `0b1110` group, high opcodes `0b0100`-`0b0111`. */
  lemma EncodedGroupE4(i: Instruction) returns (d: u4, b: u4, a: u4, l: u4)
    requires i.AddC? || i.Shr? || i.Shrc? || i.Shra?
    ensures Encode(i) == Nibbles(d, b, a, l)
    ensures DecodeFields(d, b, a, l) == Some(i)
  {
    match i
    case AddC(rd, rb) =>
      d, b, a, l := rd.index, rb.index, 4, 14;
    case Shr(rd, rb) =>
      d, b, a, l := rd.index, rb.index, 5, 14;
    case Shrc(rd, rb) =>
      d, b, a, l := rd.index, rb.index, 6, 14;
    case Shra(rd, rb) =>
      d, b, a, l := rd.index, rb.index, 7, 14;
    case _ => assert false;
  }

  /** `EncodedNibbles` for the `0b1110` group, high opcodes `0b1000`-`0b1011`. */
  lemma EncodedGroupE8(i: Instruction) returns (d: u4, b: u4, a: u4, l: u4)
    requires i.Shr8? || i.Jal? || i.Ldp? || i.Ldi?
    ensures Encode(i) == Nibbles(d, b, a, l)
    ensures DecodeFields(d, b, a, l) == Some(i)
  {
    match i
    case Shr8(rd, rb) =>
      d, b, a, l := rd.index, rb.index, 8, 14;
    case Jal(rd, addr) =>
      d, b, a, l := rd.index, addr.index, 9, 14;
    case Ldp(rd, addr) =>
      d, b, a, l := rd.index, addr.index, 10, 14;
    case Ldi(rd) =>
      d, b, a, l := rd.index, 0, 11, 14;
    case _ => assert false;
  }

  /** `EncodedNibbles` for the `0b1110` group, high opcodes `0b1100`-`0b1111`. */
  lemma EncodedGroupE12(i: Instruction) returns (d: u4, b: u4, a: u4, l: u4)
    requires i.StC? || i.Andi?
    ensures Encode(i) == Nibbles(d, b, a, l)
    ensures DecodeFields(d, b, a, l) == Some(i)
  {
    match i
    case StC(rd, addr) =>
      d, b, a, l := rd.index, addr.index, 12, 14;
    case Andi(rd, v) =>
      d, b, a, l := rd.index, I4Bits(v), 13, 14;
  }

  /** `EncodedNibbles` for `ori` and `xori`. */
  lemma EncodedGroupE14(i: Instruction) returns (d: u4, b: u4, a: u4, l: u4)
    requires i.Ori? || i.Xori?
    ensures Encode(i) == Nibbles(d, b, a, l)
    ensures DecodeFields(d, b, a, l) == Some(i)
  {
    match i
    case Ori(rd, v) =>
      d, b, a, l := rd.index, I4Bits(v), 14, 14;
    case Xori(rd, v) =>
      d, b, a, l := rd.index, I4Bits(v), 15, 14;
  }

  /** `EncodedNibbles` for the control-register moves of the `0b1111`
   * group. */
  lemma EncodedGroupF(i: Instruction) returns (d: u4, b: u4, a: u4, l: u4)
    requires i.Ldcr? || i.Stcr?
    ensures Encode(i) == Nibbles(d, b, a, l)
    ensures DecodeFields(d, b, a, l) == Some(i)
  {
    match i
    case Ldcr(rd, cr) =>
      CrU16RoundTrip(cr);
      d, b, a, l := rd.index, CrToU16(cr), 0, 15;
    case Stcr(val, cr) =>
      CrU16RoundTrip(cr);
      d, b, a, l := val.index, CrToU16(cr), 1, 15;
  }

  /** `EncodedNibbles` for the rest of the `0b1111` group. */
  lemma EncodedGroupFSystem(i: Instruction) returns (d: u4, b: u4, a: u4, l: u4)
    requires i.Syscall? || i.Reti? || i.Break?
    ensures Encode(i) == Nibbles(d, b, a, l)
    ensures DecodeFields(d, b, a, l) == Some(i)
  {
    match i
    case Syscall(code) =>
      d, b, a, l := 0, code, 2, 15;
    case Reti =>
      d, b, a, l := 0, 0, 3, 15;
    case Break =>
      d, b, a, l := 0, 0, 15, 15;
  }

  /** The nibbles that `encode` writes for an instruction, and the proof
   * that the decoder reads the same instruction back from them. */
  lemma EncodedNibbles(i: Instruction) returns (d: u4, b: u4, a: u4, l: u4)
    ensures Encode(i) == Nibbles(d, b, a, l)
    ensures DecodeFields(d, b, a, l) == Some(i)
  {
    if i.Add? || i.Sub? || i.And? || i.Or? || i.Xor? || i.Pack? || i.Bcmp? {
      d, b, a, l := EncodedThreeRegister(i);
    } else if i.Jalr? || i.Addi? || i.Bz? || i.Bnz? {
      d, b, a, l := EncodedImmediate(i);
    } else if i.Ld? || i.St? {
      d, b, a, l := EncodedMemory(i);
    } else if i.Bc? || i.Bnc? || i.Addc? || i.Subc? {
      d, b, a, l := EncodedGroupE0(i);
    } else if i.AddC? || i.Shr? || i.Shrc? || i.Shra? {
      d, b, a, l := EncodedGroupE4(i);
    } else if i.Shr8? || i.Jal? || i.Ldp? || i.Ldi? {
      d, b, a, l := EncodedGroupE8(i);
    } else if i.StC? || i.Andi? {
      d, b, a, l := EncodedGroupE12(i);
    } else if i.Ori? || i.Xori? {
      d, b, a, l := EncodedGroupE14(i);
    } else if i.Ldcr? || i.Stcr? {
      d, b, a, l := EncodedGroupF(i);
    } else {
      d, b, a, l := EncodedGroupFSystem(i);
    }
  }

  /** The proptest `instruction_word_roundtrip`, for every instruction. */
  lemma DecodeEncode(i: Instruction)
    ensures Decode(Encode(i)) == Some(i)
  {
    var d, b, a, l := EncodedNibbles(i);
    DecodeOfNibbles(d, b, a, l);
  }

  /** The same round trip for the decoder as written: no encoded
   * instruction carries a control-register nibble of 8 or more, so
   * decoding an encoding never panics. */
  lemma DecodeAsWrittenEncode(i: Instruction)
    ensures DecodeAsWritten(Encode(i)) == Returns(Some(i))
  {
    DecodeEncode(i);
    DecodeDomain(Encode(i));
  }

  /** The other direction on nibbles: re-encoding a decoded instruction
   * gives back every field the decoder looked at. */
  lemma EncodeDecodeFields(d: u4, b: u4, a: u4, l: u4)
    requires DecodeFields(d, b, a, l).Some? && !IgnoresFields(DecodeFields(d, b, a, l).value)
    ensures Encode(DecodeFields(d, b, a, l).value) == Nibbles(d, b, a, l)
  {
    var i := DecodeFields(d, b, a, l).value;
    if l <= 6 {
      assert Encode(i) == EncodeRrr(Reg(d), Reg(b), Reg(a), l);
    } else if l <= 11 {
      DivMod16(a, b);
      assert Encode(i) == EncodeR8(Reg(d), U8AsI8(a * 16 + b), l);
    } else if l <= 13 {
      assert Encode(i) == EncodeRr4(Reg(d), Reg(b), U4BitsToI4(a), l);
    } else if l == 14 {
      DivMod16(d, b);
      EncodeDecodeGroupE(d, b, a);
    } else {
      CrTryFromInverse(b);
      assert Encode(i) == EncodeR4u(Reg(d), b, a, l);
    }
  }

  lemma EncodeDecodeGroupE(d: u4, b: u4, a: u4)
    requires a != 11
    ensures Encode(DecodeGroupE(d, b, a)) == Nibbles(d, b, a, 14)
  {
    DivMod16(d, b);
  }

  /** The other direction: a decodable word is the encoding of what it
   * decodes to, up to the ignored fields. */
  lemma EncodeDecode(w: u16)
    requires Decode(w).Some? && !IgnoresFields(Decode(w).value)
    ensures Encode(Decode(w).value) == w
  {
    var n := ToNibbles(w);
    assert Decode(w) == DecodeFields(n.0, n.1, n.2, n.3);
    EncodeDecodeFields(n.0, n.1, n.2, n.3);
  }

  lemma CrTryFromInverse(v: u16)
    ensures v < 8 ==> CrToU16(CrTryFrom(v).value) == v
  {
  }

  /** The decoder test `add_r0`. */
  lemma DecodeZeroIsAdd()
    ensures Decode(0x0000) == Some(Add(Reg(0), Reg(0), Reg(0)))
  {
    DecodeOfNibbles(0, 0, 0, 0);
  }

  /** The decoder test `break_`. */
  lemma DecodeAllOnesIsBreak()
    ensures Decode(0xffff) == Some(Break)
  {
    DecodeOfNibbles(15, 15, 15, 15);
  }

  /** The decoder test `instruction_from_word_invalid_opcode`. */
  lemma Decode009fIsInvalid()
    ensures Decode(0x009f) == None
  {
    DecodeOfNibbles(0, 0, 9, 15);
  }

  /** A word that makes `decode` as written panic. */
  lemma DecodePanicsOnControlRegister8()
    ensures DecodeAsWritten(0x080f) == Panics
    ensures Decode(0x080f) == None
  {
    assert Nibbles(0, 8, 0, 15) == 0x080f;
    NibblesRoundTrip(0, 8, 0, 15);
  }
}
