/** Operand registers of the emulator toolchain and the disassembler: the
 * three-bit general purpose register `Gpr(u3)` and the eight control
 * registers, with their numeric and textual conversions. */
module Registers {
  import opened Wrappers
  import DecimalText

  type u16 = x: int | 0 <= x < 0x1_0000
  type u3 = x: int | 0 <= x < 8

  /** `Gpr(u3)`: a general purpose register index. */
  datatype Gpr = Gpr(index: u3)

  /** `Gpr::try_from(u16)`: the `u3` conversion, which fails above 7. */
  function GprTryFrom(v: u16): (r: Result<Gpr, ()>)
    ensures r.Ok? <==> v < 8
    ensures r.Ok? ==> GprToU16(r.value) == v
  {
    if v < 8 then Ok(Gpr(v)) else Err(())
  }

  /** `From<Gpr> for u16`. */
  function GprToU16(g: Gpr): (v: u16)
    ensures v < 8
  {
    g.index
  }

  lemma GprU16RoundTrip(g: Gpr)
    ensures GprTryFrom(GprToU16(g)) == Ok(g)
  {
  }

  /** `Display for Gpr`: `r{n}`. */
  function GprText(g: Gpr): (s: string)
    ensures |s| == 2 && s[0] == 'r' && DecimalText.IsDigit(s[1])
    ensures DecimalText.DigitValue(s[1]) == g.index
  {
    "r" + DecimalText.DecString(g.index)
  }

  /** `FromStr for Gpr`: strip the `r` prefix, parse a `u16`, convert. */
  function GprFromStr(s: string): (r: Result<Gpr, ()>)
    ensures r.Ok? ==> |s| >= 2 && s[0] == 'r'
    ensures r.Ok? ==> DecimalText.ParseU16(s[1..]) == Some(r.value.index)
  {
    if |s| > 0 && s[0] == 'r' then
      match DecimalText.ParseU16(s[1..])
      case Some(n) => GprTryFrom(n)
      case None => Err(())
    else Err(())
  }

  /** `gpr_str_roundtrip`: the displayed text parses back to the register. */
  lemma GprTextRoundTrip(g: Gpr)
    ensures GprFromStr(GprText(g)) == Ok(g)
  {
    var t := GprText(g);
    assert t[1..] == DecimalText.DecString(g.index);
    DecimalText.ParseU16DecString(g.index);
  }

  /** `gpr_bad_str`: the four rejected examples. */
  lemma GprFromStrRejectsExamples()
    ensures GprFromStr("xxxx").Err? && GprFromStr("rx").Err?
    ensures GprFromStr("r99").Err? && GprFromStr("s0").Err?
  {
    assert "rx"[1..] == "x";
    assert "r99"[1..] == "99";
    assert DecimalText.DigitsValue("99") == 99 by {
      assert "99"[..1] == "9";
      assert "9"[..0] == "";
    }
  }

  /** Any register number of 8 or more written after `r` is rejected,
   * whatever its spelling (leading zeros, a `+`). */
  lemma GprFromStrRejectsLarge(s: string)
    requires |s| >= 1 && s[0] == 'r'
    requires DecimalText.ParseU16(s[1..]).Some? && DecimalText.ParseU16(s[1..]).value >= 8
    ensures GprFromStr(s).Err?
  {
  }

  datatype ControlRegister =
    | AluStatus | CpuStatus | ContextID | IntCause | IntBase | IntPc | MMUAddr | MMUData

  /** `cr as u16`: the `repr(u16)` discriminant. */
  function CrToU16(cr: ControlRegister): (v: u16)
    ensures v < 8
  {
    match cr
    case AluStatus => 0 case CpuStatus => 1 case ContextID => 2 case IntCause => 3
    case IntBase => 4 case IntPc => 5 case MMUAddr => 6 case MMUData => 7
  }

  /** `TryFromPrimitive`: exactly the discriminants 0 to 7 convert. */
  function CrTryFrom(v: u16): (r: Option<ControlRegister>)
    ensures r.Some? <==> v < 8
    ensures r.Some? ==> CrToU16(r.value) == v
  {
    match v
    case 0 => Some(AluStatus) case 1 => Some(CpuStatus) case 2 => Some(ContextID)
    case 3 => Some(IntCause) case 4 => Some(IntBase) case 5 => Some(IntPc)
    case 6 => Some(MMUAddr) case 7 => Some(MMUData) case _ => None
  }

  /** `control_register_u16_roundtrip`. */
  lemma CrU16RoundTrip(cr: ControlRegister)
    ensures CrTryFrom(CrToU16(cr)) == Some(cr)
  {
  }

  /** `Display for ControlRegister`: the `Debug` text, the variant name. */
  function CrName(cr: ControlRegister): (s: string)
    ensures |s| > 0 && 'A' <= s[0] <= 'Z'
  {
    match cr
    case AluStatus => "AluStatus" case CpuStatus => "CpuStatus" case ContextID => "ContextID"
    case IntCause => "IntCause" case IntBase => "IntBase" case IntPc => "IntPc"
    case MMUAddr => "MMUAddr" case MMUData => "MMUData"
  }

  /** `EnumString`: exact, case-sensitive variant names. */
  function CrFromStr(s: string): (r: Option<ControlRegister>)
    ensures r.Some? ==> CrName(r.value) == s
  {
    if s == "AluStatus" then Some(AluStatus)
    else if s == "CpuStatus" then Some(CpuStatus)
    else if s == "ContextID" then Some(ContextID)
    else if s == "IntCause" then Some(IntCause)
    else if s == "IntBase" then Some(IntBase)
    else if s == "IntPc" then Some(IntPc)
    else if s == "MMUAddr" then Some(MMUAddr)
    else if s == "MMUData" then Some(MMUData)
    else None
  }

  /** `control_register_str_roundtrip`. */
  lemma CrNameRoundTrip(cr: ControlRegister)
    ensures CrFromStr(CrName(cr)) == Some(cr)
  {
  }

  /** `control_register_bad_str` and `control_register_bad_str_lowercase`:
   * a name that is not exactly a variant name is rejected, in particular any
   * name starting with a lowercase letter. */
  lemma CrFromStrRejects(s: string)
    requires forall cr: ControlRegister :: CrName(cr) != s
    ensures CrFromStr(s) == None
  {
  }

  lemma CrFromStrRejectsLowercase(s: string)
    requires |s| > 0 && 'a' <= s[0] <= 'z'
    ensures CrFromStr(s) == None
  {
    forall cr: ControlRegister ensures CrName(cr) != s {
    }
    CrFromStrRejects(s);
  }
}
