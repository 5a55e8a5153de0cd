/** The instruction-set description the build scripts read
 * (`instruction_set/src/lib.rs`, in the toolchain and the emulator
 * copies): argument types, encoding pieces, and the text encoding of an
 * instruction, one character per bit: `0`, `1`, or `x` for a bit that is
 * not fixed. */
module InstructionSet {
  import opened Wrappers
  import DecimalText

  /** The toolchain copy's fixed instruction width and opcode width. */
  const InstructionBits: nat := 16
  const OpcodeBits: nat := 7

  datatype ArgType = Gpr | ControlRegister | Immediate(signed: bool, bits: nat)

  datatype Piece = Literal(text: string) | Ignored(count: nat) | Arg(name: string)

  datatype DefinitionError =
    | BadArgumentType(typeText: string)
    | UndefinedArgument(mnemonic: string, argName: string)
    | WrongEncodingLength(mnemonic: string, bits: nat)

  /** Reading an argument type gives a type, an error, or a panic: the
   * first character is taken by the byte slice `s[0..1]`, which panics on
   * an empty string and on a first character longer than one byte. */
  datatype ArgTypeParse = Parsed(argType: ArgType) | Refused(error: DefinitionError) | Panics

  // ------------------------------------------------------ argument types

  /** `InstructionEncodingArgType::try_from`: `gpr`, `cr`, or `s`/`u`
   * followed by a `usize`. */
  function ParseArgType(s: string): (r: ArgTypeParse)
    ensures s == "gpr" ==> r == Parsed(Gpr)
    ensures s == "cr" ==> r == Parsed(ControlRegister)
    ensures r.Panics? <==> s != "gpr" && s != "cr" && (s == [] || s[0] as int > 0x7f)
    ensures r.Refused? ==> r.error == BadArgumentType(s)
    ensures r.Parsed? && r.argType.Immediate? ==>
      (s[0] == 's' || s[0] == 'u') && r.argType.signed == (s[0] == 's') &&
      DecimalText.ParseUsize(s[1..]) == Some(r.argType.bits)
    ensures s != [] && s[0] as int <= 0x7f && s != "gpr" && s != "cr" ==>
      (r.Parsed? <==> (s[0] == 's' || s[0] == 'u') && DecimalText.ParseUsize(s[1..]).Some?)
  {
    if s == "gpr" then Parsed(Gpr)
    else if s == "cr" then Parsed(ControlRegister)
    else if s == [] || s[0] as int > 0x7f then Panics
    else if s[0] != 's' && s[0] != 'u' then Refused(BadArgumentType(s))
    else
      match DecimalText.ParseUsize(s[1..])
      case None => Refused(BadArgumentType(s))
      case Some(n) => Parsed(Immediate(s[0] == 's', n))
  }

  /** The text a definition file uses for a type. */
  function ArgTypeText(t: ArgType): (s: string)
    ensures |s| >= 2
  {
    match t
    case Gpr => "gpr"
    case ControlRegister => "cr"
    case Immediate(signed, bits) => (if signed then "s" else "u") + DecimalText.DecString(bits)
  }

  /** Every type is read back from its text. */
  lemma ParseArgTypeText(t: ArgType)
    requires t.Immediate? ==> t.bits < DecimalText.UsizeLimit
    ensures ParseArgType(ArgTypeText(t)) == Parsed(t)
  {
    if t.Immediate? {
      var s := ArgTypeText(t);
      assert s[1..] == DecimalText.DecString(t.bits);
      DecimalText.ParseUsizeDecString(t.bits);
    }
  }

  /** Texts the type parser refuses or panics on. */
  lemma ParseArgTypeExamples()
    ensures ParseArgType("x8") == Refused(BadArgumentType("x8"))
    ensures ParseArgType("s") == Refused(BadArgumentType("s"))
    ensures ParseArgType("u8b") == Refused(BadArgumentType("u8b"))
    ensures ParseArgType("") == Panics
    ensures ParseArgType("u+8") == Parsed(Immediate(false, 8))
  {
    assert "u8b"[1..] == "8b";
    assert !DecimalText.IsDigit('b');
    assert "u+8"[1..] == "+8" && "+8"[1..] == "8";
    assert DecimalText.DigitsValue("8") == 8 by {
      assert "8"[..0] == "";
    }
  }

  /** `bits`: registers take three bits, an immediate its own width. */
  function Bits(t: ArgType): (n: nat)
    ensures t.Gpr? || t.ControlRegister? ==> n == 3
    ensures t.Immediate? ==> n == t.bits
  {
    match t
    case Gpr => 3
    case ControlRegister => 3
    case Immediate(_, bits) => bits
  }

  // -------------------------------------------------------------- pieces

  predicate AllBinary(s: string) { forall i :: 0 <= i < |s| ==> s[i] == '0' || s[i] == '1' }

  predicate AllX(s: string) { forall i :: 0 <= i < |s| ==> s[i] == 'x' }

  /** `InstructionEncodingPiece::from`: only `0`/`1` is a literal (so the
   * empty string is one), only `x` is an ignored run of that length, and
   * anything else names an argument. */
  function Classify(s: string): (p: Piece)
    ensures p.Literal? <==> AllBinary(s)
    ensures p.Literal? ==> p.text == s
    ensures p.Ignored? <==> !AllBinary(s) && AllX(s)
    ensures p.Ignored? ==> p.count == |s| > 0
    ensures p.Arg? ==> p.name == s && |s| > 0
  {
    if AllBinary(s) then Literal(s)
    else if AllX(s) then Ignored(|s|)
    else Arg(s)
  }

  /** `count` copies of `x`. */
  function Xs(count: nat): (s: string)
    ensures |s| == count && AllX(s)
  {
    seq(count, _ => 'x')
  }

  /** The text of one piece: a literal as written, `x` for every ignored
   * or argument bit; an argument the instruction does not declare is an
   * error. */
  function PieceText(p: Piece, args: map<string, ArgType>, mnemonic: string): (r: Result<string, DefinitionError>)
    ensures p.Arg? ==> (r.Err? <==> p.name !in args)
    ensures r.Err? ==> p.Arg? && r.error == UndefinedArgument(mnemonic, p.name)
    ensures p.Literal? ==> r == Ok(p.text)
    ensures p.Ignored? ==> r == Ok(Xs(p.count))
    ensures p.Arg? && r.Ok? ==> r.value == Xs(Bits(args[p.name]))
  {
    match p
    case Literal(text) => Ok(text)
    case Ignored(count) => Ok(Xs(count))
    case Arg(name) =>
      if name in args then Ok(Xs(Bits(args[name]))) else Err(UndefinedArgument(mnemonic, name))
  }

  /** The pieces' texts joined, stopping at the first undefined argument. */
  function Expand(pieces: seq<Piece>, args: map<string, ArgType>, mnemonic: string): (r: Result<string, DefinitionError>)
    ensures r.Err? ==> r.error.UndefinedArgument?
    decreases |pieces|
  {
    if pieces == [] then Ok("")
    else
      match Expand(pieces[..|pieces| - 1], args, mnemonic)
      case Err(e) => Err(e)
      case Ok(prefix) =>
        match PieceText(pieces[|pieces| - 1], args, mnemonic)
        case Err(e) => Err(e)
        case Ok(t) => Ok(prefix + t)
  }

  /** `Instruction::encoding(mnemonic, instruction_bits)`: the expanded
   * text, which must be exactly `instruction_bits` long (16 in the
   * toolchain copy). */
  function Encoding(pieces: seq<Piece>, args: map<string, ArgType>, mnemonic: string, instructionBits: nat): (r: Result<string, DefinitionError>)
    ensures r.Ok? ==> |r.value| == instructionBits
    ensures r.Err? && r.error.WrongEncodingLength? ==>
      Expand(pieces, args, mnemonic).Ok? && r.error == WrongEncodingLength(mnemonic, |Expand(pieces, args, mnemonic).value|) && r.error.bits != instructionBits
  {
    match Expand(pieces, args, mnemonic)
    case Err(e) => Err(e)
    case Ok(e) => if |e| != instructionBits then Err(WrongEncodingLength(mnemonic, |e|)) else Ok(e)
  }

  /** Every argument piece names a declared argument. */
  predicate ArgsDeclared(pieces: seq<Piece>, args: map<string, ArgType>)
  {
    forall i :: 0 <= i < |pieces| && pieces[i].Arg? ==> pieces[i].name in args
  }

  /** The number of bits the pieces take. */
  function Width(pieces: seq<Piece>, args: map<string, ArgType>): (n: nat)
    requires ArgsDeclared(pieces, args)
    decreases |pieces|
  {
    if pieces == [] then 0
    else
      var p := pieces[|pieces| - 1];
      Width(pieces[..|pieces| - 1], args) +
        match p
        case Literal(text) => |text|
        case Ignored(count) => count
        case Arg(name) => Bits(args[name])
  }

  /** Expansion succeeds exactly when every argument is declared, and then
   * its length is the pieces' width. */
  lemma {:induction false} ExpandSucceeds(pieces: seq<Piece>, args: map<string, ArgType>, mnemonic: string)
    ensures Expand(pieces, args, mnemonic).Ok? <==> ArgsDeclared(pieces, args)
    ensures ArgsDeclared(pieces, args) ==> |Expand(pieces, args, mnemonic).value| == Width(pieces, args)
    decreases |pieces|
  {
    if pieces != [] {
      var init := pieces[..|pieces| - 1];
      ExpandSucceeds(init, args, mnemonic);
      if ArgsDeclared(init, args) && !ArgsDeclared(pieces, args) {
        assert pieces[|pieces| - 1].Arg? && pieces[|pieces| - 1].name !in args;
      }
      if ArgsDeclared(pieces, args) {
        assert ArgsDeclared(init, args) by {
          forall i | 0 <= i < |init| && init[i].Arg?
            ensures init[i].name in args
          {
            assert init[i] == pieces[i];
          }
        }
      }
    }
  }

  /** `encoding` succeeds exactly when every argument is declared and the
   * pieces take exactly `instruction_bits` bits. */
  lemma EncodingSucceeds(pieces: seq<Piece>, args: map<string, ArgType>, mnemonic: string, instructionBits: nat)
    ensures Encoding(pieces, args, mnemonic, instructionBits).Ok? <==>
      ArgsDeclared(pieces, args) && Width(pieces, args) == instructionBits
  {
    ExpandSucceeds(pieces, args, mnemonic);
  }

  /** With binary literals, an encoding is made of `0`, `1` and `x`. */
  lemma {:induction false} ExpandAlphabet(pieces: seq<Piece>, args: map<string, ArgType>, mnemonic: string)
    requires forall i :: 0 <= i < |pieces| && pieces[i].Literal? ==> AllBinary(pieces[i].text)
    requires Expand(pieces, args, mnemonic).Ok?
    ensures var e := Expand(pieces, args, mnemonic).value;
      forall i :: 0 <= i < |e| ==> e[i] == '0' || e[i] == '1' || e[i] == 'x'
    decreases |pieces|
  {
    if pieces != [] {
      var init := pieces[..|pieces| - 1];
      assert forall i :: 0 <= i < |init| ==> init[i] == pieces[i];
      ExpandAlphabet(init, args, mnemonic);
    }
  }

  /** An undefined argument is reported at the first piece that names
   * one, whatever follows. */
  lemma {:induction false} ExpandFirstError(pieces: seq<Piece>, args: map<string, ArgType>, mnemonic: string, k: nat)
    requires k <= |pieces| && Expand(pieces[..k], args, mnemonic).Err?
    ensures Expand(pieces, args, mnemonic) == Expand(pieces[..k], args, mnemonic)
    decreases |pieces| - k
  {
    if k < |pieces| {
      var init := pieces[..|pieces| - 1];
      assert init[..k] == pieces[..k];
      ExpandFirstError(init, args, mnemonic, k);
    } else {
      assert pieces[..k] == pieces;
    }
  }

  /** The loop of `encoding`, pushing each piece's characters in turn. */
  method EncodingLoop(pieces: seq<Piece>, args: map<string, ArgType>, mnemonic: string, instructionBits: nat) returns (r: Result<string, DefinitionError>)
    ensures r == Encoding(pieces, args, mnemonic, instructionBits)
  {
    var encoding := "";
    var i := 0;
    while i < |pieces|
      invariant 0 <= i <= |pieces|
      invariant Expand(pieces[..i], args, mnemonic) == Ok(encoding)
    {
      assert pieces[..i + 1][..i] == pieces[..i];
      match pieces[i] {
        case Literal(text) =>
          encoding := encoding + text;
        case Ignored(count) =>
          var before := encoding;
          var j := 0;
          while j < count
            invariant 0 <= j <= count
            invariant encoding == before + Xs(j)
          {
            encoding := encoding + "x";
            j := j + 1;
          }
        case Arg(name) =>
          if name !in args {
            ExpandFirstError(pieces, args, mnemonic, i + 1);
            return Err(UndefinedArgument(mnemonic, name));
          }
          var before := encoding;
          var j := 0;
          while j < Bits(args[name])
            invariant 0 <= j <= Bits(args[name])
            invariant encoding == before + Xs(j)
          {
            encoding := encoding + "x";
            j := j + 1;
          }
      }
      i := i + 1;
    }
    assert pieces[..i] == pieces;
    if |encoding| != instructionBits {
      return Err(WrongEncodingLength(mnemonic, |encoding|));
    }
    return Ok(encoding);
  }

  // -------------------------------------------------------------- helpers

  /** `OneOrMany`, a JSON field holding one value or a list. */
  datatype OneOrMany<T> = One(item: T) | Many(items: seq<T>)

  /** `From<OneOrMany<T>> for Vec<T>`. */
  function ToSeq<T>(o: OneOrMany<T>): (r: seq<T>)
    ensures o.One? ==> r == [o.item]
    ensures o.Many? ==> r == o.items
  {
    match o
    case One(item) => [item]
    case Many(items) => items
  }
}
