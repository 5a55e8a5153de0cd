/** Where the code generators put each argument of an instruction: the
 * decoder arms of `generate_instruction_match_arm` (both `build.rs` copies
 * in `toolchain-rs`) shift the word right by `16 - offset`, with `offset`
 * the number of bits up to and including the argument; the encoder arms of
 * `generate_instruction_output_arm` shift each argument left by the bits
 * after it and OR in the literal bits as one constant. The two agree: the
 * decoder reads back every argument the encoder wrote. */
module FieldLayout {
  import opened Arith
  import opened InstructionSet

  /** The bits one piece takes. */
  function PieceBits(p: Piece, args: map<string, ArgType>): nat
    requires p.Arg? ==> p.name in args
  {
    match p
    case Literal(text) => |text|
    case Ignored(count) => count
    case Arg(name) => Bits(args[name])
  }

  lemma ArgsDeclaredPrefix(pieces: seq<Piece>, args: map<string, ArgType>, k: nat)
    requires ArgsDeclared(pieces, args) && k <= |pieces|
    ensures ArgsDeclared(pieces[..k], args) && ArgsDeclared(pieces[k..], args)
  {
    assert forall i :: 0 <= i < k ==> pieces[..k][i] == pieces[i];
    assert forall i :: 0 <= i < |pieces| - k ==> pieces[k..][i] == pieces[k + i];
  }

  /** The width of pieces laid side by side is the sum of their widths. */
  lemma {:induction false} WidthAppend(a: seq<Piece>, b: seq<Piece>, args: map<string, ArgType>)
    requires ArgsDeclared(a + b, args)
    ensures ArgsDeclared(a, args) && ArgsDeclared(b, args)
    ensures Width(a + b, args) == Width(a, args) + Width(b, args)
    decreases |b|
  {
    ArgsDeclaredPrefix(a + b, args, |a|);
    assert (a + b)[..|a|] == a && (a + b)[|a|..] == b;
    if b != [] {
      var init := b[..|b| - 1];
      assert (a + b)[..|a + b| - 1] == a + init;
      ArgsDeclaredPrefix(a + b, args, |a + b| - 1);
      WidthAppend(a, init, args);
    } else {
      assert a + b == a;
    }
  }

  // --------------------------------------------------------- bit values

  /** The number a text of bits spells, most significant bit first; every
   * character other than `1` is a 0 bit, so `x` reads as 0. */
  function TextValue(t: string): nat
    decreases |t|
  {
    if t == [] then 0 else 2 * TextValue(t[..|t| - 1]) + (if t[|t| - 1] == '1' then 1 else 0)
  }

  lemma {:induction false} TextValueBound(t: string)
    ensures TextValue(t) < Pow2(|t|)
    decreases |t|
  {
    if t != [] {
      TextValueBound(t[..|t| - 1]);
    }
  }

  lemma {:induction false} TextValueAppend(a: string, b: string)
    ensures TextValue(a + b) == TextValue(a) * Pow2(|b|) + TextValue(b)
    decreases |b|
  {
    if b == [] {
      assert a + b == a;
    } else {
      var init := b[..|b| - 1];
      var c := if b[|b| - 1] == '1' then 1 else 0;
      assert (a + b)[..|a + b| - 1] == a + init && (a + b)[|a + b| - 1] == b[|b| - 1];
      TextValueAppend(a, init);
      assert TextValue(a + b) == (TextValue(a) * Pow2(|init|) + TextValue(init)) * 2 + c;
      ShiftRegroup(TextValue(a), Pow2(|init|), TextValue(init), 2, c);
      assert Pow2(|b|) == Pow2(|init|) * 2;
    }
  }

  lemma {:induction false} TextValueXs(n: nat)
    ensures TextValue(Xs(n)) == 0
  {
    var t := Xs(n);
    if n > 0 {
      assert t[..n - 1] == Xs(n - 1);
      TextValueXs(n - 1);
    }
  }

  /** The value a piece contributes: a literal its bits, an ignored run 0,
   * an argument its value (0 when none is given). */
  function PieceValue(p: Piece, values: map<string, nat>): nat
  {
    match p
    case Literal(text) => TextValue(text)
    case Ignored(_) => 0
    case Arg(name) => if name in values then values[name] else 0
  }

  /** Every given argument value is declared and fits its field. */
  predicate ValuesFit(args: map<string, ArgType>, values: map<string, nat>)
  {
    forall n :: n in values ==> n in args && values[n] < Pow2(Bits(args[n]))
  }

  /** The word the pieces spell with the given argument values, the first
   * piece in the most significant bits: the layout both generators
   * implement. */
  function Pack(pieces: seq<Piece>, args: map<string, ArgType>, values: map<string, nat>): nat
    requires ArgsDeclared(pieces, args)
    decreases |pieces|
  {
    if pieces == [] then 0
    else
      ArgsDeclaredPrefix(pieces, args, |pieces| - 1);
      var p := pieces[|pieces| - 1];
      Pack(pieces[..|pieces| - 1], args, values) * Pow2(PieceBits(p, args)) + PieceValue(p, values)
  }

  lemma PackLast(pieces: seq<Piece>, args: map<string, ArgType>, values: map<string, nat>)
    requires ArgsDeclared(pieces, args) && pieces != []
    ensures ArgsDeclared(pieces[..|pieces| - 1], args)
    ensures Pack(pieces, args, values) ==
      Pack(pieces[..|pieces| - 1], args, values) * Pow2(PieceBits(pieces[|pieces| - 1], args)) + PieceValue(pieces[|pieces| - 1], values)
  {
    ArgsDeclaredPrefix(pieces, args, |pieces| - 1);
  }

  lemma PackArgLast(pieces: seq<Piece>, args: map<string, ArgType>, values: map<string, nat>, name: string)
    requires ArgsDeclared(pieces, args) && pieces != [] && pieces[|pieces| - 1] == Arg(name) && name in values
    ensures ArgsDeclared(pieces[..|pieces| - 1], args) && name in args
    ensures Pack(pieces, args, values) == Pack(pieces[..|pieces| - 1], args, values) * Pow2(Bits(args[name])) + values[name]
  {
    PackLast(pieces, args, values);
  }

  lemma {:induction false} PackBound(pieces: seq<Piece>, args: map<string, ArgType>, values: map<string, nat>)
    requires ArgsDeclared(pieces, args) && ValuesFit(args, values)
    ensures Pack(pieces, args, values) < Pow2(Width(pieces, args))
    decreases |pieces|
  {
    if pieces != [] {
      var init := pieces[..|pieces| - 1];
      var p := pieces[|pieces| - 1];
      ArgsDeclaredPrefix(pieces, args, |pieces| - 1);
      PackBound(init, args, values);
      var b := PieceBits(p, args);
      assert PieceValue(p, values) < Pow2(b) by {
        if p.Literal? {
          TextValueBound(p.text);
        }
      }
      Pow2Add(Width(init, args), b);
      ShiftBound(Pack(init, args, values), Pow2(Width(init, args)), PieceValue(p, values), Pow2(b));
    }
  }

  lemma {:induction false} PackAppend(a: seq<Piece>, b: seq<Piece>, args: map<string, ArgType>, values: map<string, nat>)
    requires ArgsDeclared(a + b, args)
    ensures ArgsDeclared(a, args) && ArgsDeclared(b, args)
    ensures Pack(a + b, args, values) == Pack(a, args, values) * Pow2(Width(b, args)) + Pack(b, args, values)
    decreases |b|
  {
    WidthAppend(a, b, args);
    if b == [] {
      assert a + b == a;
    } else {
      var init := b[..|b| - 1];
      assert (a + b)[..|a + b| - 1] == a + init;
      ArgsDeclaredPrefix(a + b, args, |a + b| - 1);
      PackAppend(a, init, args, values);
      assert (a + b)[|a + b| - 1] == b[|b| - 1];
      PackAppendStep(a, b, a + b, a + init, args, values);
    }
  }

  /** `PackAppend` for `b` from `PackAppend` for all of `b` but its last
   * piece; `c` is `a + b` and `front` is `c` without its last piece. */
  lemma PackAppendStep(a: seq<Piece>, b: seq<Piece>, c: seq<Piece>, front: seq<Piece>, args: map<string, ArgType>, values: map<string, nat>)
    requires b != [] && c != [] && front == c[..|c| - 1] && c[|c| - 1] == b[|b| - 1]
    requires ArgsDeclared(a, args) && ArgsDeclared(b, args) && ArgsDeclared(c, args)
    requires ArgsDeclared(front, args) && ArgsDeclared(b[..|b| - 1], args)
    requires Pack(front, args, values) == Pack(a, args, values) * Pow2(Width(b[..|b| - 1], args)) + Pack(b[..|b| - 1], args, values)
    ensures Pack(c, args, values) == Pack(a, args, values) * Pow2(Width(b, args)) + Pack(b, args, values)
  {
    var init := b[..|b| - 1];
    var p := b[|b| - 1];
    WidthLast(b, args);
    Pow2Split(Width(b, args), Width(init, args), PieceBits(p, args));
    PackLast(c, args, values);
    PackLast(b, args, values);
    AppendRegroup(Pack(c, args, values), Pack(front, args, values), Pack(a, args, values), Pow2(Width(init, args)),
      Pack(init, args, values), Pow2(PieceBits(p, args)), PieceValue(p, values), Pow2(Width(b, args)), Pack(b, args, values));
  }


  lemma PackSplit(pieces: seq<Piece>, args: map<string, ArgType>, values: map<string, nat>, k: nat)
    requires ArgsDeclared(pieces, args) && k <= |pieces|
    ensures ArgsDeclared(pieces[..k], args) && ArgsDeclared(pieces[k..], args)
    ensures Pack(pieces, args, values) == Pack(pieces[..k], args, values) * Pow2(Width(pieces[k..], args)) + Pack(pieces[k..], args, values)
  {
    assert pieces[..k] + pieces[k..] == pieces;
    PackAppend(pieces[..k], pieces[k..], args, values);
  }

  /** With no argument values the packed word is the encoding text read as
   * a binary number with `x` as 0: the constant part of the instruction. */
  lemma {:induction false} PackFixedBits(pieces: seq<Piece>, args: map<string, ArgType>, mnemonic: string)
    requires ArgsDeclared(pieces, args)
    ensures Expand(pieces, args, mnemonic).Ok?
    ensures Pack(pieces, args, map[]) == TextValue(Expand(pieces, args, mnemonic).value)
    decreases |pieces|
  {
    ExpandSucceeds(pieces, args, mnemonic);
    if pieces != [] {
      var init := pieces[..|pieces| - 1];
      var p := pieces[|pieces| - 1];
      ArgsDeclaredPrefix(pieces, args, |pieces| - 1);
      PackFixedBits(init, args, mnemonic);
      var t := PieceText(p, args, mnemonic).value;
      TextValueAppend(Expand(init, args, mnemonic).value, t);
      assert |t| == PieceBits(p, args);
      match p {
        case Literal(_) =>
        case Ignored(count) => TextValueXs(count);
        case Arg(name) => TextValueXs(Bits(args[name]));
      }
    }
  }

  // ----------------------------------------------------------- encoder

  /** The constant of an encoder arm: each literal's bits shifted left by
   * the bits after it. */
  function FixedPart(pieces: seq<Piece>, args: map<string, ArgType>): nat
    requires ArgsDeclared(pieces, args) && Width(pieces, args) <= InstructionBits
    decreases |pieces|
  {
    if pieces == [] then 0
    else
      ArgsDeclaredPrefix(pieces, args, |pieces| - 1);
      var p := pieces[|pieces| - 1];
      FixedPart(pieces[..|pieces| - 1], args) +
        (if p.Literal? then TextValue(p.text) * Pow2(InstructionBits - Width(pieces, args)) else 0)
  }

  /** The argument terms of an encoder arm, in order: each argument with
   * the left shift it is written at. */
  function ArgTerms(pieces: seq<Piece>, args: map<string, ArgType>): seq<(string, nat)>
    requires ArgsDeclared(pieces, args) && Width(pieces, args) <= InstructionBits
    decreases |pieces|
  {
    if pieces == [] then []
    else
      ArgsDeclaredPrefix(pieces, args, |pieces| - 1);
      var p := pieces[|pieces| - 1];
      ArgTerms(pieces[..|pieces| - 1], args) +
        (if p.Arg? then [(p.name, InstructionBits - Width(pieces, args))] else [])
  }

  /** The sum of the terms for the given argument values. */
  function TermsValue(terms: seq<(string, nat)>, values: map<string, nat>): nat
    decreases |terms|
  {
    if terms == [] then 0
    else
      var t := terms[|terms| - 1];
      TermsValue(terms[..|terms| - 1], values) + (if t.0 in values then values[t.0] else 0) * Pow2(t.1)
  }

  /** The word an encoder arm produces. */
  function EncodedWord(pieces: seq<Piece>, args: map<string, ArgType>, values: map<string, nat>): nat
    requires ArgsDeclared(pieces, args) && Width(pieces, args) <= InstructionBits
  {
    FixedPart(pieces, args) + TermsValue(ArgTerms(pieces, args), values)
  }

  /** One more piece: the width grows by the piece's bits, and the
   * encoder's constant and terms gain the piece's part. */
  lemma EncoderStep(pieces: seq<Piece>, args: map<string, ArgType>)
    requires ArgsDeclared(pieces, args) && Width(pieces, args) <= InstructionBits && pieces != []
    ensures ArgsDeclared(pieces[..|pieces| - 1], args)
    ensures Width(pieces, args) == Width(pieces[..|pieces| - 1], args) + PieceBits(pieces[|pieces| - 1], args)
    ensures var p := pieces[|pieces| - 1];
      && FixedPart(pieces, args) == FixedPart(pieces[..|pieces| - 1], args) +
        (if p.Literal? then TextValue(p.text) * Pow2(InstructionBits - Width(pieces, args)) else 0)
      && ArgTerms(pieces, args) == ArgTerms(pieces[..|pieces| - 1], args) +
        (if p.Arg? then [(p.name, InstructionBits - Width(pieces, args))] else [])
  {
    ArgsDeclaredPrefix(pieces, args, |pieces| - 1);
  }

  /** ... and the encoded word gains the piece's value at the bits below
   * it. */
  lemma EncodedWordStep(pieces: seq<Piece>, args: map<string, ArgType>, values: map<string, nat>)
    requires ArgsDeclared(pieces, args) && Width(pieces, args) <= InstructionBits && pieces != []
    ensures ArgsDeclared(pieces[..|pieces| - 1], args)
    ensures EncodedWord(pieces, args, values) ==
      EncodedWord(pieces[..|pieces| - 1], args, values) + PieceValue(pieces[|pieces| - 1], values) * Pow2(InstructionBits - Width(pieces, args))
  {
    if pieces[|pieces| - 1].Arg? {
      WordStepArg(pieces, args, values);
    } else {
      WordStepFixed(pieces, args, values);
    }
  }

  /** The step for a literal or an ignored piece: only the constant part
   * changes. */
  lemma WordStepFixed(pieces: seq<Piece>, args: map<string, ArgType>, values: map<string, nat>)
    requires ArgsDeclared(pieces, args) && Width(pieces, args) <= InstructionBits && pieces != []
    requires !pieces[|pieces| - 1].Arg?
    ensures ArgsDeclared(pieces[..|pieces| - 1], args)
    ensures EncodedWord(pieces, args, values) ==
      EncodedWord(pieces[..|pieces| - 1], args, values) + PieceValue(pieces[|pieces| - 1], values) * Pow2(InstructionBits - Width(pieces, args))
  {
    EncoderStep(pieces, args);
    var init := pieces[..|pieces| - 1];
    var atInit := ArgTerms(init, args);
    assert atInit + [] == atInit;
    assert ArgTerms(pieces, args) == atInit;
  }

  /** The step for an argument piece: one more term, at the bits below it. */
  lemma WordStepArg(pieces: seq<Piece>, args: map<string, ArgType>, values: map<string, nat>)
    requires ArgsDeclared(pieces, args) && Width(pieces, args) <= InstructionBits && pieces != []
    requires pieces[|pieces| - 1].Arg?
    ensures ArgsDeclared(pieces[..|pieces| - 1], args)
    ensures EncodedWord(pieces, args, values) ==
      EncodedWord(pieces[..|pieces| - 1], args, values) + PieceValue(pieces[|pieces| - 1], values) * Pow2(InstructionBits - Width(pieces, args))
  {
    EncoderStep(pieces, args);
    var init := pieces[..|pieces| - 1];
    var name := pieces[|pieces| - 1].name;
    var sh := InstructionBits - Width(pieces, args);
    var atInit := ArgTerms(init, args);
    var terms := atInit + [(name, sh)];
    assert ArgTerms(pieces, args) == terms;
    assert terms[..|terms| - 1] == atInit;
    assert FixedPart(pieces, args) == FixedPart(init, args);
    assert TermsValue(terms, values) == TermsValue(atInit, values) + (if name in values then values[name] else 0) * Pow2(sh);
  }

  /** An encoder arm writes the pieces' layout, aligned to the top of the
   * 16-bit word. */
  lemma {:induction false} EncodedWordPacks(pieces: seq<Piece>, args: map<string, ArgType>, values: map<string, nat>)
    requires ArgsDeclared(pieces, args) && Width(pieces, args) <= InstructionBits
    ensures EncodedWord(pieces, args, values) == Pack(pieces, args, values) * Pow2(InstructionBits - Width(pieces, args))
    decreases |pieces|
  {
    if pieces != [] {
      var init := pieces[..|pieces| - 1];
      EncoderStep(pieces, args);
      EncodedWordPacks(init, args, values);
      PacksStep(pieces, init, args, values);
    }
  }

  /** The step of `EncodedWordPacks`: from the pieces but the last to all
   * of them. */
  lemma PacksStep(pieces: seq<Piece>, init: seq<Piece>, args: map<string, ArgType>, values: map<string, nat>)
    requires ArgsDeclared(pieces, args) && Width(pieces, args) <= InstructionBits && pieces != []
    requires init == pieces[..|pieces| - 1] && ArgsDeclared(init, args) && Width(init, args) <= Width(pieces, args)
    requires EncodedWord(init, args, values) == Pack(init, args, values) * Pow2(InstructionBits - Width(init, args))
    ensures EncodedWord(pieces, args, values) == Pack(pieces, args, values) * Pow2(InstructionBits - Width(pieces, args))
  {
    var p := pieces[|pieces| - 1];
    EncoderStep(pieces, args);
    EncodedWordStep(pieces, args, values);
    var bits := PieceBits(p, args);
    var low := InstructionBits - Width(pieces, args);
    Pow2Add(bits, low);
    var x, v := Pack(init, args, values), PieceValue(p, values);
    var pb, pl := Pow2(bits), Pow2(low);
    assert InstructionBits - Width(init, args) == bits + low;
    PackLast(pieces, args, values);
    PacksRegroup(EncodedWord(pieces, args, values), EncodedWord(init, args, values), x, pb, v, pl, Pack(pieces, args, values));
  }

  lemma Pow2Split(n: nat, a: nat, b: nat)
    requires n == a + b
    ensures Pow2(n) == Pow2(a) * Pow2(b)
  {
    Pow2Add(a, b);
  }

  lemma WidthLast(pieces: seq<Piece>, args: map<string, ArgType>)
    requires ArgsDeclared(pieces, args) && pieces != []
    ensures ArgsDeclared(pieces[..|pieces| - 1], args)
    ensures Width(pieces, args) == Width(pieces[..|pieces| - 1], args) + PieceBits(pieces[|pieces| - 1], args)
  {
    ArgsDeclaredPrefix(pieces, args, |pieces| - 1);
  }

  lemma AppendRegroup(whole: nat, front: nat, x: nat, pi: nat, y: nat, pp: nat, v: nat, pw: nat, back: nat)
    requires front == x * pi + y && whole == front * pp + v && pw == pi * pp && back == y * pp + v
    ensures whole == x * pw + back
  {
    ShiftRegroup(x, pi, y, pp, v);
  }

  lemma PacksRegroup(word: nat, wordInit: nat, x: nat, pb: nat, v: nat, pl: nat, pack: nat)
    requires wordInit == x * (pb * pl) && word == wordInit + v * pl && pack == x * pb + v
    ensures word == pack * pl
  {
    ShiftRegroup(x, pb, v, pl, 0);
  }

  /** A full 16-bit encoding needs no alignment. */
  lemma EncodedWordFull(pieces: seq<Piece>, args: map<string, ArgType>, values: map<string, nat>)
    requires ArgsDeclared(pieces, args) && Width(pieces, args) == InstructionBits
    ensures EncodedWord(pieces, args, values) == Pack(pieces, args, values)
  {
    EncodedWordPacks(pieces, args, values);
    assert Pow2(InstructionBits - Width(pieces, args)) == 1;
  }

  /** The loop of `generate_instruction_output_arm`: the offset starts at
   * 16 and drops by each piece's width; literals are ORed into the
   * constant (a sum, since their bits are disjoint) and each argument is
   * recorded with the offset it is shifted by. */
  method OutputArm(pieces: seq<Piece>, args: map<string, ArgType>) returns (fixed: nat, terms: seq<(string, nat)>)
    requires ArgsDeclared(pieces, args) && Width(pieces, args) <= InstructionBits
    requires forall i :: 0 <= i < |pieces| && pieces[i].Literal? ==> |pieces[i].text| > 0
    ensures fixed == FixedPart(pieces, args) && terms == ArgTerms(pieces, args)
  {
    fixed := 0;
    terms := [];
    var offset := InstructionBits;
    var i := 0;
    while i < |pieces|
      invariant 0 <= i <= |pieces|
      invariant ArgsDeclared(pieces[..i], args) && Width(pieces[..i], args) <= InstructionBits
      invariant offset == InstructionBits - Width(pieces[..i], args)
      invariant fixed == FixedPart(pieces[..i], args) && terms == ArgTerms(pieces[..i], args)
    {
      ArmStep(pieces, args, i);
      match pieces[i] {
        case Literal(text) =>
          offset := offset - |text|;
          fixed := fixed + TextValue(text) * Pow2(offset);
        case Ignored(count) =>
          offset := offset - count;
        case Arg(name) =>
          offset := offset - Bits(args[name]);
          terms := terms + [(name, offset)];
      }
      i := i + 1;
    }
    assert pieces[..i] == pieces;
  }

  /** `EncoderStep` for the prefix `pieces[..i + 1]`. */
  lemma ArmStep(pieces: seq<Piece>, args: map<string, ArgType>, i: nat)
    requires ArgsDeclared(pieces, args) && Width(pieces, args) <= InstructionBits && i < |pieces|
    ensures ArgsDeclared(pieces[..i], args) && ArgsDeclared(pieces[..i + 1], args) && Width(pieces[..i + 1], args) <= InstructionBits
    ensures Width(pieces[..i + 1], args) == Width(pieces[..i], args) + PieceBits(pieces[i], args)
    ensures var p, sh := pieces[i], InstructionBits - Width(pieces[..i + 1], args);
      && FixedPart(pieces[..i + 1], args) == FixedPart(pieces[..i], args) + (if p.Literal? then TextValue(p.text) * Pow2(sh) else 0)
      && ArgTerms(pieces[..i + 1], args) == ArgTerms(pieces[..i], args) + (if p.Arg? then [(p.name, sh)] else [])
  {
    var next := pieces[..i + 1];
    ArgsDeclaredPrefix(pieces, args, i + 1);
    WidthAppend(next, pieces[i + 1..], args);
    assert next + pieces[i + 1..] == pieces;
    assert next[..i] == pieces[..i] && next[i] == pieces[i];
    EncoderStep(next, args);
  }

  // ----------------------------------------------------------- decoder

  /** `arg_offsets` after the pieces: each argument's offset is the number
   * of bits up to and including its last occurrence. */
  function ArgOffsets(pieces: seq<Piece>, args: map<string, ArgType>): map<string, nat>
    requires ArgsDeclared(pieces, args)
    decreases |pieces|
  {
    if pieces == [] then map[]
    else
      ArgsDeclaredPrefix(pieces, args, |pieces| - 1);
      var p := pieces[|pieces| - 1];
      var m := ArgOffsets(pieces[..|pieces| - 1], args);
      if p.Arg? then m[p.name := Width(pieces, args)] else m
  }

  /** Piece `j` is argument `name`, and its offset is the width of the
   * pieces up to and including it. */
  predicate OffsetFrom(pieces: seq<Piece>, args: map<string, ArgType>, name: string, j: nat)
    requires ArgsDeclared(pieces, args) && j < |pieces|
  {
    ArgsDeclaredPrefix(pieces, args, j + 1);
    pieces[j] == Arg(name) && name in ArgOffsets(pieces, args) && ArgOffsets(pieces, args)[name] == Width(pieces[..j + 1], args)
  }

  /** An argument has an offset exactly when some piece names it, and then
   * the offset is the width of the pieces up to and including one such
   * piece. */
  lemma {:induction false} ArgOffsetsAt(pieces: seq<Piece>, args: map<string, ArgType>, name: string)
    requires ArgsDeclared(pieces, args)
    ensures name in ArgOffsets(pieces, args) <==> exists j :: 0 <= j < |pieces| && pieces[j] == Arg(name)
    ensures name in ArgOffsets(pieces, args) ==> exists j :: 0 <= j < |pieces| && OffsetFrom(pieces, args, name, j)
    decreases |pieces|
  {
    if pieces != [] {
      var init := pieces[..|pieces| - 1];
      var last := |pieces| - 1;
      ArgsDeclaredPrefix(pieces, args, last);
      ArgOffsetsAt(init, args, name);
      assert forall j :: 0 <= j < |init| ==> init[j] == pieces[j] && init[..j + 1] == pieces[..j + 1];
      if pieces[last] == Arg(name) {
        assert pieces[..last + 1] == pieces;
        assert OffsetFrom(pieces, args, name, last);
      } else if name in ArgOffsets(init, args) {
        var j :| 0 <= j < |init| && OffsetFrom(init, args, name, j);
        assert ArgOffsets(pieces, args)[name] == ArgOffsets(init, args)[name];
        assert init[..j + 1] == pieces[..j + 1];
        assert OffsetFrom(pieces, args, name, j);
      }
    }
  }

  /** The loop of `generate_instruction_match_arm` that fills
   * `arg_offsets`. */
  method ArgOffsetsLoop(pieces: seq<Piece>, args: map<string, ArgType>) returns (offsets: map<string, nat>)
    requires ArgsDeclared(pieces, args)
    ensures offsets == ArgOffsets(pieces, args)
  {
    offsets := map[];
    var offset := 0;
    var i := 0;
    while i < |pieces|
      invariant 0 <= i <= |pieces|
      invariant ArgsDeclared(pieces[..i], args)
      invariant offset == Width(pieces[..i], args) && offsets == ArgOffsets(pieces[..i], args)
    {
      ArgsDeclaredPrefix(pieces, args, i + 1);
      assert pieces[..i + 1][..i] == pieces[..i];
      match pieces[i] {
        case Literal(text) =>
          offset := offset + |text|;
        case Ignored(count) =>
          offset := offset + count;
        case Arg(name) =>
          offset := offset + Bits(args[name]);
          offsets := offsets[name := offset];
      }
      i := i + 1;
    }
    assert pieces[..i] == pieces;
  }

  /** The right shift a decoder arm applies to read an argument, or a panic
   * when the argument has no offset or the offset passes 16. */
  datatype Shift = ShiftBy(amount: nat) | ShiftPanics

  function MatchArmShift(pieces: seq<Piece>, args: map<string, ArgType>, name: string): Shift
    requires ArgsDeclared(pieces, args)
  {
    var offsets := ArgOffsets(pieces, args);
    if name !in offsets || offsets[name] > InstructionBits then ShiftPanics
    else ShiftBy(InstructionBits - offsets[name])
  }

  /** For a 16-bit encoding the decoder arm panics exactly for a declared
   * argument no piece names. */
  lemma MatchArmShiftPanics(pieces: seq<Piece>, args: map<string, ArgType>, name: string)
    requires ArgsDeclared(pieces, args) && Width(pieces, args) == InstructionBits
    ensures MatchArmShift(pieces, args, name).ShiftPanics? <==> forall j :: 0 <= j < |pieces| ==> pieces[j] != Arg(name)
  {
    ArgOffsetsAt(pieces, args, name);
    if name in ArgOffsets(pieces, args) {
      var j :| 0 <= j < |pieces| && OffsetFrom(pieces, args, name, j);
      assert pieces[..j + 1] + pieces[j + 1..] == pieces;
      WidthAppend(pieces[..j + 1], pieces[j + 1..], args);
    }
  }

  /** An argument `name` named by some piece splits the pieces into a front
   * ending with that piece and a back, and the decoder's shift is the back's
   * width. */
  lemma ArgSplit(pieces: seq<Piece>, args: map<string, ArgType>, name: string) returns (j: nat)
    requires ArgsDeclared(pieces, args) && Width(pieces, args) == InstructionBits
    requires exists j :: 0 <= j < |pieces| && pieces[j] == Arg(name)
    ensures j < |pieces| && pieces[j] == Arg(name)
    ensures ArgsDeclared(pieces[..j + 1], args) && ArgsDeclared(pieces[j + 1..], args)
    ensures MatchArmShift(pieces, args, name) == ShiftBy(Width(pieces[j + 1..], args))
    ensures Width(pieces[..j + 1], args) + Width(pieces[j + 1..], args) == InstructionBits
  {
    ArgOffsetsAt(pieces, args, name);
    j :| 0 <= j < |pieces| && OffsetFrom(pieces, args, name, j);
    assert pieces[..j + 1] + pieces[j + 1..] == pieces;
    WidthAppend(pieces[..j + 1], pieces[j + 1..], args);
  }

  /** Reading a field back: below it `lowBits` bits of anything, above it
   * anything. */
  lemma ExtractField(word: int, upper: int, high: int, v: int, fieldSize: int, low: int, lowSize: int)
    requires 0 <= v < fieldSize && 0 <= low < lowSize && 0 <= high
    requires upper == high * fieldSize + v && word == upper * lowSize + low
    ensures (word / lowSize) % fieldSize == v
  {
    DivModUnique(word, lowSize, upper, low);
    DivModUnique(upper, fieldSize, high, v);
  }

  /** The decoder reads back what the encoder wrote: for a 16-bit encoding
   * and argument values that fit their fields, shifting the encoded word
   * right by the decoder's shift and keeping the argument's bits gives the
   * argument's value. */
  lemma FieldRoundTrip(pieces: seq<Piece>, args: map<string, ArgType>, values: map<string, nat>, name: string)
    requires ArgsDeclared(pieces, args) && Width(pieces, args) == InstructionBits
    requires ValuesFit(args, values) && name in values
    requires exists j :: 0 <= j < |pieces| && pieces[j] == Arg(name)
    ensures MatchArmShift(pieces, args, name).ShiftBy?
    ensures var s := MatchArmShift(pieces, args, name).amount;
      (EncodedWord(pieces, args, values) / Pow2(s)) % Pow2(Bits(args[name])) == values[name]
  {
    var j := ArgSplit(pieces, args, name);
    PackSplit(pieces, args, values, j + 1);
    PackArgLast(pieces[..j + 1], args, values, name);
    PackBound(pieces[j + 1..], args, values);
    EncodedWordFull(pieces, args, values);
    assert pieces[..j + 1][..j] == pieces[..j];
    assert values[name] < Pow2(Bits(args[name]));
    var shift := Pow2(Width(pieces[j + 1..], args));
    ExtractField(EncodedWord(pieces, args, values), Pack(pieces[..j + 1], args, values), Pack(pieces[..j], args, values),
      values[name], Pow2(Bits(args[name])), Pack(pieces[j + 1..], args, values), shift);
    assert Pow2(MatchArmShift(pieces, args, name).amount) == shift;
  }
}
