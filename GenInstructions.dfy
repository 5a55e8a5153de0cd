/** The generator of the C assembler's instruction table
 * (`assembler/generate_instructions.py`): every mnemonic of the
 * instruction-set description is expanded over its `{name}` placeholders,
 * and each variant becomes one table entry holding the mnemonic, the
 * 16-bit base encoding (argument bits and `x` bits 0) and, per argument,
 * its type, shift and size.
 *
 * The JSON input becomes Dafny values: an object becomes a sequence of
 * (key, value) pairs in the object's order. Writing the C text is left out;
 * the model produces the entries the text spells. */
module GenInstructions {
  import opened Wrappers
  import opened Arith
  import opened WordFields
  import DecimalText
  import FieldLayout

  const InstructionBits: nat := 16
  const MaxArgs: nat := 3

  // ------------------------------------------------------------ entries

  /** The argument types of `instructions.h`. */
  datatype ArgKind = Gpr | Cr | Signed | Unsigned

  /** `INSTRUCTION_ARG_*`: the table codes; 0 (`INSTRUCTION_ARG_NONE`)
   * ends an entry's argument list and is no argument's code. */
  function KindCode(k: ArgKind): (c: nat)
    ensures c != 0
    ensures c == 1 <==> k == Gpr
    ensures c == 2 <==> k == Cr
    ensures c == 4 <==> k == Signed
    ensures c == 5 <==> k == Unsigned
  {
    match k
    case Gpr => 1
    case Cr => 2
    case Signed => 4
    case Unsigned => 5
  }

  datatype ArgDef = ArgDef(kind: ArgKind, shift: nat, size: nat)

  datatype InstrDef = InstrDef(mnemonic: string, encoding: nat, args: seq<ArgDef>)

  datatype GenError =
    | UnknownPiece(piece: string)
    | BadLength(length: nat)
    | TooManyArgs(count: nat)
    | BadArgType(argType: string)
    | MissingArg(name: string)
    | BadSize(argType: string)

  /** An instruction's `args` object: argument names and types, in order. */
  type ArgList = seq<(string, string)>

  predicate DistinctNames(args: ArgList)
  {
    forall j, k :: 0 <= j < k < |args| ==> args[j].0 != args[k].0
  }

  function TypeOf(args: ArgList, name: string): (t: Option<string>)
    ensures t.Some? <==> exists k :: 0 <= k < |args| && args[k].0 == name
    ensures t.Some? ==> exists k :: 0 <= k < |args| && args[k] == (name, t.value)
  {
    if args == [] then None
    else if args[0].0 == name then Some(args[0].1)
    else
      var t := TypeOf(args[1..], name);
      assert forall k :: 1 <= k < |args| ==> args[1..][k - 1] == args[k];
      t
  }

  /** With distinct names, the type found is the one listed. */
  lemma {:induction false} TypeOfListed(args: ArgList, k: nat)
    requires DistinctNames(args) && k < |args|
    ensures TypeOf(args, args[k].0) == Some(args[k].1)
  {
    if k > 0 {
      assert args[1..][k - 1] == args[k];
      TypeOfListed(args[1..], k - 1);
    }
  }

  // ---------------------------------------------------------- arguments

  /** Python's `int(text)` on the texts this model accepts: an optional
   * `+` followed by decimal digits. */
  function PyInt(s: string): (r: Option<nat>)
    ensures r.Some? ==> |s| > 0
  {
    var digits := if |s| > 0 && s[0] == '+' then s[1..] else s;
    if |digits| == 0 || !DecimalText.AllDigits(digits) then None
    else Some(DecimalText.DigitsValue(digits))
  }

  lemma PyIntDecimal(n: nat)
    ensures PyInt(DecimalText.DecString(n)) == Some(n)
  {
    DecimalText.DecStringValue(n);
  }

  /** The bits an argument takes: 3 for a register, otherwise the number
   * after the type's first letter. */
  function ArgSize(t: string): (r: Result<nat, GenError>)
    ensures t == "gpr" || t == "cr" ==> r == Ok(3)
    ensures t != "gpr" && t != "cr" ==>
      (r.Ok? <==> |t| > 0 && PyInt(t[1..]).Some?) &&
      (r.Ok? ==> r.value == PyInt(t[1..]).value)
    ensures r.Err? ==> r.error == BadSize(t)
  {
    if t == "gpr" || t == "cr" then Ok(3)
    else
      var rest := if |t| > 0 then t[1..] else "";
      match PyInt(rest)
      case None => Err(BadSize(t))
      case Some(n) => Ok(n)
  }

  /** The table type of an argument type: registers by name, immediates by
   * their first letter. */
  function ArgKindOf(t: string): (k: Option<ArgKind>)
    ensures k == Some(Gpr) <==> t == "gpr"
    ensures k == Some(Cr) <==> t == "cr"
    ensures k == Some(Signed) <==> t != "gpr" && t != "cr" && |t| > 0 && t[0] == 's'
    ensures k == Some(Unsigned) <==> t != "gpr" && t != "cr" && |t| > 0 && t[0] == 'u'
  {
    if t == "gpr" then Some(Gpr)
    else if t == "cr" then Some(Cr)
    else if |t| > 0 && t[0] == 's' then Some(Signed)
    else if |t| > 0 && t[0] == 'u' then Some(Unsigned)
    else None
  }

  // ------------------------------------------------------------- layout

  /** A literal piece: only `0`, `1` and `x`. */
  predicate IsBitPiece(p: string)
  {
    forall i :: 0 <= i < |p| ==> p[i] in {'0', '1', 'x'}
  }

  predicate AllBinary(t: string)
  {
    forall i :: 0 <= i < |t| ==> t[i] == '0' || t[i] == '1'
  }

  /** `piece.replace("x", "0")`. */
  function ZeroX(p: string): (r: string)
    ensures |r| == |p|
    ensures forall i :: 0 <= i < |p| ==> r[i] == (if p[i] == 'x' then '0' else p[i])
  {
    if p == [] then [] else [if p[0] == 'x' then '0' else p[0]] + ZeroX(p[1..])
  }

  function Zeros(n: nat): (r: string)
    ensures |r| == n && forall i :: 0 <= i < n ==> r[i] == '0'
  {
    if n == 0 then [] else Zeros(n - 1) + ['0']
  }

  /** The encoding text built so far and, per argument met, the position
   * just past its bits and its size. */
  datatype Layout = Layout(text: string, locations: map<string, (nat, nat)>)

  /** One piece of the `encoding` list. An argument name appends that many
   * zeros and records where they end; otherwise the piece must be made of
   * `0`, `1` and `x`, and is appended with `x` written as `0`. */
  function AddPiece(l: Layout, piece: string, args: ArgList): (r: Result<Layout, GenError>)
  {
    match TypeOf(args, piece)
    case Some(t) =>
      (match ArgSize(t)
       case Err(e) => Err(e)
       case Ok(size) =>
         var text := l.text + Zeros(size);
         Ok(Layout(text, l.locations[piece := (|text|, size)])))
    case None =>
      if IsBitPiece(piece) then Ok(Layout(l.text + ZeroX(piece), l.locations))
      else Err(UnknownPiece(piece))
  }

  /** The layout of a whole encoding list, or the first piece's error. */
  function Build(pieces: seq<string>, args: ArgList): (r: Result<Layout, GenError>)
    decreases |pieces|
  {
    if pieces == [] then Ok(Layout("", map[]))
    else
      match Build(pieces[..|pieces| - 1], args)
      case Err(e) => Err(e)
      case Ok(l) => AddPiece(l, pieces[|pieces| - 1], args)
  }

  /** A recorded argument: its bits lie inside the text and are all 0. */
  predicate Located(l: Layout, name: string)
    requires name in l.locations
  {
    var (pos, size) := l.locations[name];
    size <= pos <= |l.text| && forall i :: pos - size <= i < pos ==> l.text[i] == '0'
  }

  /** Two recorded bit ranges `[pos - size, pos)` that share no bit. */
  predicate RangesApart(a: (nat, nat), b: (nat, nat))
  {
    a.0 <= b.0 - b.1 || b.0 <= a.0 - a.1
  }

  /** What the loop keeps: a text of bits; each argument recorded with its
   * declared size, over zero bits of the text; and no two arguments
   * sharing a bit. */
  predicate LayoutOk(l: Layout, args: ArgList)
  {
    && AllBinary(l.text)
    && (forall n :: n in l.locations ==>
          Located(l, n) && TypeOf(args, n).Some? && ArgSize(TypeOf(args, n).value) == Ok(l.locations[n].1))
    && (forall n, m :: n in l.locations && m in l.locations && n != m ==>
          RangesApart(l.locations[n], l.locations[m]))
  }

  lemma AddPieceOk(l: Layout, piece: string, args: ArgList)
    requires LayoutOk(l, args) && AddPiece(l, piece, args).Ok?
    ensures LayoutOk(AddPiece(l, piece, args).value, args)
  {
    var l2 := AddPiece(l, piece, args).value;
    if TypeOf(args, piece).Some? {
      var size := ArgSize(TypeOf(args, piece).value).value;
      assert l2.text == l.text + Zeros(size);
      forall n | n in l2.locations
        ensures Located(l2, n)
      {
        if n != piece {
          assert Located(l, n);
        }
      }
      forall n, m | n in l2.locations && m in l2.locations && n != m
        ensures RangesApart(l2.locations[n], l2.locations[m])
      {
        if n != piece && m != piece {
          assert RangesApart(l.locations[n], l.locations[m]);
        } else if n == piece {
          assert Located(l, m);
        } else {
          assert Located(l, n);
        }
      }
    } else {
      forall n | n in l2.locations
        ensures Located(l2, n)
      {
        assert Located(l, n);
      }
    }
  }

  /** Every layout that is built keeps the loop's invariant. */
  lemma {:induction false} BuildOk(pieces: seq<string>, args: ArgList)
    requires Build(pieces, args).Ok?
    ensures LayoutOk(Build(pieces, args).value, args)
    decreases |pieces|
  {
    if pieces != [] {
      var init := pieces[..|pieces| - 1];
      BuildOk(init, args);
      AddPieceOk(Build(init, args).value, pieces[|pieces| - 1], args);
    }
  }

  /** An argument is recorded exactly when its name is one of the pieces. */
  lemma {:induction false} BuildLocations(pieces: seq<string>, args: ArgList, name: string)
    requires Build(pieces, args).Ok?
    ensures name in Build(pieces, args).value.locations <==>
      TypeOf(args, name).Some? && exists j :: 0 <= j < |pieces| && pieces[j] == name
    decreases |pieces|
  {
    if pieces != [] {
      var init := pieces[..|pieces| - 1];
      BuildLocations(init, args, name);
      var l := Build(init, args).value;
      var last := pieces[|pieces| - 1];
      assert Build(pieces, args) == AddPiece(l, last, args);
      AddPieceLocations(l, last, args, name);
      OccursInInitOrLast(pieces, init, name);
    }
  }

  /** Adding a piece records it exactly when it names an argument. */
  lemma AddPieceLocations(l: Layout, piece: string, args: ArgList, name: string)
    requires AddPiece(l, piece, args).Ok?
    ensures name in AddPiece(l, piece, args).value.locations <==>
      name in l.locations || (name == piece && TypeOf(args, piece).Some?)
  {
  }

  lemma OccursInInitOrLast(pieces: seq<string>, init: seq<string>, name: string)
    requires pieces != [] && init == pieces[..|pieces| - 1]
    ensures (exists j :: 0 <= j < |pieces| && pieces[j] == name) <==>
      (exists j :: 0 <= j < |init| && init[j] == name) || pieces[|pieces| - 1] == name
  {
    if exists j :: 0 <= j < |pieces| && pieces[j] == name {
      var j :| 0 <= j < |pieces| && pieces[j] == name;
      if j < |pieces| - 1 {
        assert init[j] == name;
      }
    }
    if exists j :: 0 <= j < |init| && init[j] == name {
      var j :| 0 <= j < |init| && init[j] == name;
      assert pieces[j] == name;
    }
  }

  // ---------------------------------------------------------- the value

  lemma {:induction false} TextValueZeros(t: string)
    requires forall i :: 0 <= i < |t| ==> t[i] == '0'
    ensures FieldLayout.TextValue(t) == 0
    decreases |t|
  {
    if t != [] {
      TextValueZeros(t[..|t| - 1]);
    }
  }

  /** Zero characters at text positions `[pos - size, pos)` of a 16-bit
   * text are a zero field at shift `16 - pos` of its value. */
  lemma TextFieldZero(t: string, pos: nat, size: nat)
    requires |t| == 16 && size <= pos <= 16
    requires forall i :: pos - size <= i < pos ==> t[i] == '0'
    ensures FieldOf(FieldLayout.TextValue(t), 16 - pos, size) == 0
  {
    var a, b, c := t[..pos - size], t[pos - size..pos], t[pos..];
    assert t == (a + b) + c;
    TextValueZeros(b);
    FieldLayout.TextValueAppend(a + b, c);
    FieldLayout.TextValueAppend(a, b);
    FieldLayout.TextValueBound(c);
    ZeroFieldOf(FieldLayout.TextValue(a), FieldLayout.TextValue(c), size, 16 - pos);
  }

  /** High bits, `size` zero bits, then `lowSize` bits of anything. */
  lemma ZeroFieldOf(high: nat, low: nat, size: nat, lowSize: nat)
    requires low < Pow2(lowSize)
    ensures FieldOf((high * Pow2(size) + 0) * Pow2(lowSize) + low, lowSize, size) == 0
  {
    ZeroFieldArith(high, Pow2(size), Pow2(lowSize), low);
  }

  lemma ZeroFieldArith(high: nat, q: nat, p: nat, low: nat)
    requires q > 0 && p > 0 && low < p
    ensures (((high * q + 0) * p + low) / p) % q == 0
  {
    DivAddMultiple(high * q, p, low);
    assert low / p == 0;
    AddMultipleMod(high, q, 0);
  }

  // ------------------------------------------------------------- entries

  /** The argument part of an entry: per argument, in order, its type, then
   * its location; the first problem is the error. */
  function ArgDefs(args: ArgList, locations: map<string, (nat, nat)>): (r: Result<seq<ArgDef>, GenError>)
    requires forall n :: n in locations ==> locations[n].0 <= InstructionBits
  {
    if args == [] then Ok([])
    else
      var (name, t) := args[0];
      match ArgKindOf(t)
      case None => Err(BadArgType(t))
      case Some(kind) =>
        if name !in locations then Err(MissingArg(name))
        else
          match ArgDefs(args[1..], locations)
          case Err(e) => Err(e)
          case Ok(rest) =>
            Ok([ArgDef(kind, InstructionBits - locations[name].0, locations[name].1)] + rest)
  }

  /** Each definition comes from the argument at the same index. */
  lemma {:induction false} ArgDefsAt(args: ArgList, locations: map<string, (nat, nat)>)
    requires forall n :: n in locations ==> locations[n].0 <= InstructionBits
    requires ArgDefs(args, locations).Ok?
    ensures var defs := ArgDefs(args, locations).value;
      |defs| == |args| &&
      forall k :: 0 <= k < |args| ==>
        args[k].0 in locations && ArgKindOf(args[k].1) == Some(defs[k].kind) &&
        defs[k].shift == InstructionBits - locations[args[k].0].0 && defs[k].size == locations[args[k].0].1
  {
    if args != [] {
      ArgDefsAt(args[1..], locations);
      var defs := ArgDefs(args, locations).value;
      forall k | 1 <= k < |args|
        ensures args[k] == args[1..][k - 1] && defs[k] == ArgDefs(args[1..], locations).value[k - 1]
      {
      }
    }
  }

  /** One table entry for an instruction whose placeholders are already
   * substituted: the encoding must be 16 bits long, there may be at most
   * three arguments, and then each argument is described. */
  function Entry(mnemonic: string, pieces: seq<string>, args: ArgList): (r: Result<InstrDef, GenError>)
  {
    match Build(pieces, args)
    case Err(e) => Err(e)
    case Ok(l) =>
      if |l.text| != InstructionBits then Err(BadLength(|l.text|))
      else if |args| > MaxArgs then Err(TooManyArgs(|args|))
      else
        BuildOk(pieces, args);
        assert forall n :: n in l.locations ==> Located(l, n);
        match ArgDefs(args, l.locations)
        case Err(e) => Err(e)
        case Ok(defs) => Ok(InstrDef(mnemonic, FieldLayout.TextValue(l.text), defs))
  }

  /** What the C assembler relies on in every entry: a 16-bit base
   * encoding, at most three arguments, each inside the word with its bits
   * 0 in the base encoding, registers 3 bits wide, and no two arguments
   * sharing a bit. */
  predicate EntryValid(d: InstrDef)
  {
    && d.encoding < 0x1_0000
    && |d.args| <= MaxArgs
    && (forall k :: 0 <= k < |d.args| ==>
          d.args[k].shift + d.args[k].size <= InstructionBits &&
          FieldOf(d.encoding, d.args[k].shift, d.args[k].size) == 0 &&
          (d.args[k].kind in {Gpr, Cr} ==> d.args[k].size == 3))
    && (forall j, k :: 0 <= j < k < |d.args| ==>
          Apart(d.args[j].shift, d.args[j].size, d.args[k].shift, d.args[k].size))
  }

  /** Every entry the generator produces is valid, has one argument per
   * declared argument, and gives each the type and size its declaration
   * names. */
  lemma EntryIsValid(mnemonic: string, pieces: seq<string>, args: ArgList)
    requires DistinctNames(args) && Entry(mnemonic, pieces, args).Ok?
    ensures var d := Entry(mnemonic, pieces, args).value;
      EntryValid(d) && d.mnemonic == mnemonic && |d.args| == |args| &&
      forall k :: 0 <= k < |args| ==>
        ArgKindOf(args[k].1) == Some(d.args[k].kind) && ArgSize(args[k].1) == Ok(d.args[k].size)
  {
    var l := Build(pieces, args).value;
    BuildOk(pieces, args);
    assert forall n :: n in l.locations ==> Located(l, n);
    var d := Entry(mnemonic, pieces, args).value;
    assert d == InstrDef(mnemonic, FieldLayout.TextValue(l.text), ArgDefs(args, l.locations).value);
    LayoutEntryValid(l, args, d);
  }

  /** The entry built from a layout the loop keeps valid is valid. */
  lemma LayoutEntryValid(l: Layout, args: ArgList, d: InstrDef)
    requires DistinctNames(args) && LayoutOk(l, args) && |l.text| == InstructionBits && |args| <= MaxArgs
    requires forall n :: n in l.locations ==> l.locations[n].0 <= InstructionBits
    requires ArgDefs(args, l.locations).Ok?
    requires d.encoding == FieldLayout.TextValue(l.text) && d.args == ArgDefs(args, l.locations).value
    ensures EntryValid(d) && |d.args| == |args|
    ensures forall k :: 0 <= k < |args| ==>
      ArgKindOf(args[k].1) == Some(d.args[k].kind) && ArgSize(args[k].1) == Ok(d.args[k].size)
  {
    ArgDefsAt(args, l.locations);
    FieldLayout.TextValueBound(l.text);
    Pow2Values();
    forall k | 0 <= k < |args|
      ensures d.args[k].shift + d.args[k].size <= InstructionBits
      ensures FieldOf(d.encoding, d.args[k].shift, d.args[k].size) == 0
      ensures ArgSize(args[k].1) == Ok(d.args[k].size)
      ensures d.args[k].kind in {Gpr, Cr} ==> d.args[k].size == 3
    {
      ArgValid(l, args, d, k);
    }
    forall j, k | 0 <= j < k < |args|
      ensures Apart(d.args[j].shift, d.args[j].size, d.args[k].shift, d.args[k].size)
    {
      ArgsApart(l, args, d, j, k);
    }
  }

  /** Two distinct arguments were recorded over bit ranges that share no
   * bit. */
  lemma ArgsApart(l: Layout, args: ArgList, d: InstrDef, j: nat, k: nat)
    requires DistinctNames(args) && LayoutOk(l, args) && j < k < |args| == |d.args|
    requires args[j].0 in l.locations && args[k].0 in l.locations
    requires d.args[j].shift == InstructionBits - l.locations[args[j].0].0 && d.args[j].size == l.locations[args[j].0].1
    requires d.args[k].shift == InstructionBits - l.locations[args[k].0].0 && d.args[k].size == l.locations[args[k].0].1
    requires l.locations[args[j].0].0 <= InstructionBits && l.locations[args[k].0].0 <= InstructionBits
    ensures Apart(d.args[j].shift, d.args[j].size, d.args[k].shift, d.args[k].size)
  {
    assert RangesApart(l.locations[args[j].0], l.locations[args[k].0]);
  }

  lemma ArgValid(l: Layout, args: ArgList, d: InstrDef, k: nat)
    requires DistinctNames(args) && LayoutOk(l, args) && |l.text| == InstructionBits
    requires d.encoding == FieldLayout.TextValue(l.text) && k < |args| && |d.args| == |args|
    requires args[k].0 in l.locations && ArgKindOf(args[k].1) == Some(d.args[k].kind)
    requires d.args[k].shift == InstructionBits - l.locations[args[k].0].0
    requires d.args[k].size == l.locations[args[k].0].1
    ensures d.args[k].shift + d.args[k].size <= InstructionBits
    ensures FieldOf(d.encoding, d.args[k].shift, d.args[k].size) == 0
    ensures ArgSize(args[k].1) == Ok(d.args[k].size)
    ensures d.args[k].kind in {Gpr, Cr} ==> d.args[k].size == 3
  {
    var n := args[k].0;
    assert Located(l, n);
    TextFieldZero(l.text, l.locations[n].0, l.locations[n].1);
    TypeOfListed(args, k);
  }

  /** The encoding list is read first, then the length is checked, then
   * the argument count, then the arguments in order. */
  lemma EntryErrors(mnemonic: string, pieces: seq<string>, args: ArgList)
    ensures Build(pieces, args).Err? ==> Entry(mnemonic, pieces, args) == Err(Build(pieces, args).error)
    ensures Build(pieces, args).Ok? && |Build(pieces, args).value.text| != InstructionBits ==>
      Entry(mnemonic, pieces, args) == Err(BadLength(|Build(pieces, args).value.text|))
    ensures Build(pieces, args).Ok? && |Build(pieces, args).value.text| == InstructionBits && |args| > MaxArgs ==>
      Entry(mnemonic, pieces, args) == Err(TooManyArgs(|args|))
    ensures Entry(mnemonic, pieces, args).Ok? ==> Build(pieces, args).Ok? && |args| <= MaxArgs
  {
  }

  /** An argument that is declared but never placed in the encoding is
   * reported, unless an earlier argument already failed. */
  lemma {:induction false} MissingArgument(args: ArgList, locations: map<string, (nat, nat)>, k: nat)
    requires forall n :: n in locations ==> locations[n].0 <= InstructionBits
    requires k < |args| && args[k].0 !in locations && ArgKindOf(args[k].1).Some?
    requires forall j :: 0 <= j < k ==> args[j].0 in locations && ArgKindOf(args[j].1).Some?
    ensures ArgDefs(args, locations) == Err(MissingArg(args[k].0))
  {
    if k > 0 {
      assert forall j :: 0 <= j < k - 1 ==> args[1..][j] == args[j + 1];
      MissingArgument(args[1..], locations, k - 1);
    }
  }

  /** The main loop for one variant, as the script runs it: the encoding
   * text and the argument locations are built piece by piece, then the
   * arguments are described one by one. */
  method GenerateEntry(mnemonic: string, pieces: seq<string>, args: ArgList) returns (r: Result<InstrDef, GenError>)
    ensures r == Entry(mnemonic, pieces, args)
  {
    EntryErrors(mnemonic, pieces, args);
    var layout := BuildLayout(pieces, args);
    if layout.Err? {
      return Err(layout.error);
    }
    var encoding, locations := layout.value.text, layout.value.locations;
    if |encoding| != InstructionBits {
      return Err(BadLength(|encoding|));
    }
    if |args| > MaxArgs {
      return Err(TooManyArgs(|args|));
    }
    EntryArgs(mnemonic, pieces, args);
    var defs := DescribeArgs(args, locations);
    if defs.Err? {
      return Err(defs.error);
    }
    r := Ok(InstrDef(mnemonic, FieldLayout.TextValue(encoding), defs.value));
  }

  /** The second loop of one variant: each argument is described in turn,
   * stopping at the first bad type or missing location. */
  method DescribeArgs(args: ArgList, locations: map<string, (nat, nat)>) returns (r: Result<seq<ArgDef>, GenError>)
    requires forall n :: n in locations ==> locations[n].0 <= InstructionBits
    ensures r == ArgDefs(args, locations)
  {
    var defs: seq<ArgDef> := [];
    var k := 0;
    ArgDefsFromStart(args, locations);
    while k < |args|
      invariant 0 <= k <= |args|
      invariant ArgDefs(args, locations) == ArgDefsFrom(defs, args[k..], locations)
    {
      var (name, t) := args[k];
      ArgDefsFromStep(defs, args[k..], locations);
      var kind := ArgKindOf(t);
      if kind.None? {
        return Err(BadArgType(t));
      }
      if name !in locations {
        return Err(MissingArg(name));
      }
      assert args[k..][1..] == args[k + 1..];
      defs := defs + [ArgDef(kind.value, InstructionBits - locations[name].0, locations[name].1)];
      k := k + 1;
    }
    r := Ok(defs);
  }

  lemma EntryArgs(mnemonic: string, pieces: seq<string>, args: ArgList)
    requires Build(pieces, args).Ok? && |Build(pieces, args).value.text| == InstructionBits && |args| <= MaxArgs
    ensures var locations := Build(pieces, args).value.locations;
      (forall n :: n in locations ==> locations[n].0 <= InstructionBits) &&
      Entry(mnemonic, pieces, args) ==
        match ArgDefs(args, locations)
        case Err(e) => Err(e)
        case Ok(defs) => Ok(InstrDef(mnemonic, FieldLayout.TextValue(Build(pieces, args).value.text), defs))
  {
    var l := Build(pieces, args).value;
    BuildOk(pieces, args);
    assert forall n :: n in l.locations ==> Located(l, n);
  }

  lemma ArgDefsFromStart(args: ArgList, locations: map<string, (nat, nat)>)
    requires forall n :: n in locations ==> locations[n].0 <= InstructionBits
    ensures ArgDefs(args, locations) == ArgDefsFrom([], args[0..], locations)
  {
    assert args[0..] == args;
    if ArgDefs(args, locations).Ok? {
      assert [] + ArgDefs(args, locations).value == ArgDefs(args, locations).value;
    }
  }

  /** One argument of the second loop: a bad type or a missing location
   * ends it with that error, otherwise one definition is added. */
  lemma ArgDefsFromStep(done: seq<ArgDef>, rest: ArgList, locations: map<string, (nat, nat)>)
    requires forall n :: n in locations ==> locations[n].0 <= InstructionBits
    requires rest != []
    ensures ArgKindOf(rest[0].1).None? ==> ArgDefsFrom(done, rest, locations) == Err(BadArgType(rest[0].1))
    ensures ArgKindOf(rest[0].1).Some? && rest[0].0 !in locations ==>
      ArgDefsFrom(done, rest, locations) == Err(MissingArg(rest[0].0))
    ensures ArgKindOf(rest[0].1).Some? && rest[0].0 in locations ==>
      var loc := locations[rest[0].0];
      ArgDefsFrom(done, rest, locations) ==
        ArgDefsFrom(done + [ArgDef(ArgKindOf(rest[0].1).value, InstructionBits - loc.0, loc.1)], rest[1..], locations)
  {
    if ArgKindOf(rest[0].1).Some? && rest[0].0 in locations {
      var loc := locations[rest[0].0];
      var d := ArgDef(ArgKindOf(rest[0].1).value, InstructionBits - loc.0, loc.1);
      if ArgDefs(rest[1..], locations).Ok? {
        var tail := ArgDefs(rest[1..], locations).value;
        assert done + ([d] + tail) == (done + [d]) + tail;
        if rest[1..] == [] {
          assert tail == [];
          assert (done + [d]) + tail == done + [d];
        }
      }
    }
  }

  /** The loop over the encoding list: the text grows piece by piece and
   * each argument's location is recorded as it is met. */
  method BuildLayout(pieces: seq<string>, args: ArgList) returns (r: Result<Layout, GenError>)
    ensures r == Build(pieces, args)
  {
    var encoding := "";
    var locations: map<string, (nat, nat)> := map[];
    var i := 0;
    while i < |pieces|
      invariant 0 <= i <= |pieces|
      invariant Build(pieces[..i], args) == Ok(Layout(encoding, locations))
    {
      var piece := pieces[i];
      BuildStep(pieces, args, i);
      var argType := TypeOf(args, piece);
      if argType.Some? {
        var size := ArgSize(argType.value);
        if size.Err? {
          BuildPrefixError(pieces, args, i + 1);
          return Err(size.error);
        }
        encoding := encoding + Zeros(size.value);
        locations := locations[piece := (|encoding|, size.value)];
      } else if IsBitPiece(piece) {
        encoding := encoding + ZeroX(piece);
      } else {
        BuildPrefixError(pieces, args, i + 1);
        return Err(UnknownPiece(piece));
      }
      i := i + 1;
    }
    assert pieces[..i] == pieces;
    r := Ok(Layout(encoding, locations));
  }

  lemma BuildStep(pieces: seq<string>, args: ArgList, i: nat)
    requires i < |pieces| && Build(pieces[..i], args).Ok?
    ensures Build(pieces[..i + 1], args) == AddPiece(Build(pieces[..i], args).value, pieces[i], args)
  {
    assert pieces[..i + 1][..i] == pieces[..i];
  }

  /** `ArgDefs` of the remaining arguments, after the definitions already
   * produced. */
  function ArgDefsFrom(done: seq<ArgDef>, rest: ArgList, locations: map<string, (nat, nat)>): (r: Result<seq<ArgDef>, GenError>)
    requires forall n :: n in locations ==> locations[n].0 <= InstructionBits
    ensures rest == [] ==> r == Ok(done)
  {
    if rest == [] then Ok(done)
    else
      match ArgDefs(rest, locations)
      case Err(e) => Err(e)
      case Ok(defs) => Ok(done + defs)
  }

  /** Once a prefix of the pieces fails, the whole list fails the same
   * way. */
  lemma {:induction false} BuildPrefixError(pieces: seq<string>, args: ArgList, i: nat)
    requires i <= |pieces| && Build(pieces[..i], args).Err?
    ensures Build(pieces, args) == Build(pieces[..i], args)
    decreases |pieces| - i
  {
    if i < |pieces| {
      assert pieces[..i + 1][..i] == pieces[..i];
      BuildPrefixError(pieces, args, i + 1);
    } else {
      assert pieces[..i] == pieces;
    }
  }

  // ------------------------------------------------------- substitution

  /** `s.replace(pat, rep)`: every occurrence of `pat`, scanning left to
   * right without overlaps, becomes `rep`. */
  function Replace(s: string, pat: string, rep: string): (r: string)
    requires |pat| > 0
    decreases |s|
  {
    if |s| < |pat| then s
    else if s[..|pat|] == pat then rep + Replace(s[|pat|..], pat, rep)
    else [s[0]] + Replace(s[1..], pat, rep)
  }

  predicate OccursAt(s: string, pat: string, i: nat)
  {
    i + |pat| <= |s| && s[i..i + |pat|] == pat
  }

  /** `pat in s`. */
  predicate Contains(s: string, pat: string)
  {
    exists i: nat :: i <= |s| && OccursAt(s, pat, i)
  }

  /** Replacing a text that does not occur changes nothing. */
  lemma {:induction false} ReplaceAbsent(s: string, pat: string, rep: string)
    requires |pat| > 0 && !Contains(s, pat)
    ensures Replace(s, pat, rep) == s
    decreases |s|
  {
    if |s| >= |pat| {
      assert s[0..0 + |pat|] == s[..|pat|];
      assert !OccursAt(s, pat, 0);
      if Contains(s[1..], pat) {
        var i: nat :| i <= |s[1..]| && OccursAt(s[1..], pat, i);
        assert s[i + 1..i + 1 + |pat|] == s[1..][i..i + |pat|];
        assert OccursAt(s, pat, i + 1);
      }
      ReplaceAbsent(s[1..], pat, rep);
      assert [s[0]] + s[1..] == s;
    }
  }

  /** Replacing a text by itself changes nothing. */
  lemma {:induction false} ReplaceSelf(s: string, pat: string)
    requires |pat| > 0
    ensures Replace(s, pat, pat) == s
    decreases |s|
  {
    if |s| >= |pat| {
      if s[..|pat|] == pat {
        ReplaceSelf(s[|pat|..], pat);
        assert pat + s[|pat|..] == s;
      } else {
        ReplaceSelf(s[1..], pat);
        assert [s[0]] + s[1..] == s;
      }
    }
  }

  /** `"{" + n + "}"`. */
  function Placeholder(name: string): (p: string)
    ensures |p| == |name| + 2 && p[0] == '{'
  {
    "{" + name + "}"
  }

  /** One value of a substitution: the text it puts into the mnemonic, and
   * per field of the instruction (`encoding`) the text it puts there. */
  datatype SubstValue = SubstValue(text: string, fields: map<string, string>)

  /** The `substitutions` object: each placeholder name with its values, in
   * order. */
  type Substitutions = seq<(string, seq<SubstValue>)>

  /** The substitutions whose placeholder occurs in the mnemonic, in the
   * object's order. */
  function Used(subs: Substitutions, mnemonic: string): (u: Substitutions)
    ensures |u| <= |subs|
    ensures forall k :: 0 <= k < |u| ==> Contains(mnemonic, Placeholder(u[k].0)) && u[k] in subs
    ensures forall k :: 0 <= k < |subs| && Contains(mnemonic, Placeholder(subs[k].0)) ==> subs[k] in u
  {
    if subs == [] then []
    else
      var rest := Used(subs[1..], mnemonic);
      assert forall k :: 1 <= k < |subs| ==> subs[k] == subs[1..][k - 1];
      if Contains(mnemonic, Placeholder(subs[0].0)) then [subs[0]] + rest else rest
  }

  /** `itertools.product`: every way of picking one element from each list,
   * the first list varying slowest. */
  function Product<T>(lists: seq<seq<T>>): (r: seq<seq<T>>)
    decreases |lists|
  {
    if lists == [] then [[]] else PrefixEach(lists[0], Product(lists[1..]))
  }

  function PrefixEach<T>(heads: seq<T>, tails: seq<seq<T>>): (r: seq<seq<T>>)
    ensures |r| == |heads| * |tails|
  {
    if heads == [] then [] else Prepend(heads[0], tails) + PrefixEach(heads[1..], tails)
  }

  function Prepend<T>(head: T, tails: seq<seq<T>>): (r: seq<seq<T>>)
    ensures |r| == |tails|
    ensures forall j :: 0 <= j < |tails| ==> r[j] == [head] + tails[j]
  {
    if tails == [] then [] else [[head] + tails[0]] + Prepend(head, tails[1..])
  }

  function SizesProduct<T>(lists: seq<seq<T>>): nat
  {
    if lists == [] then 1 else |lists[0]| * SizesProduct(lists[1..])
  }

  /** A picked tuple: one element of each list, in order. */
  predicate Picks<T(==)>(e: seq<T>, lists: seq<seq<T>>)
  {
    |e| == |lists| && forall i :: 0 <= i < |e| ==> e[i] in lists[i]
  }

  /** The product has one tuple per combination and every tuple picks one
   * element from each list. */
  lemma {:induction false} ProductShape<T>(lists: seq<seq<T>>)
    ensures |Product(lists)| == SizesProduct(lists)
    ensures forall e :: e in Product(lists) ==> Picks(e, lists)
    decreases |lists|
  {
    if lists != [] {
      ProductShape(lists[1..]);
      PrefixEachPicks(lists[0], Product(lists[1..]), lists[1..]);
      forall e | e in Product(lists)
        ensures Picks(e, lists)
      {
        assert e[0] in lists[0] && Picks(e[1..], lists[1..]);
        forall i | 1 <= i < |e|
          ensures e[i] in lists[i]
        {
          assert e[1..][i - 1] == e[i];
        }
      }
    }
  }

  lemma {:induction false} PrefixEachPicks<T>(heads: seq<T>, tails: seq<seq<T>>, rest: seq<seq<T>>)
    requires forall t :: t in tails ==> Picks(t, rest)
    ensures forall e :: e in PrefixEach(heads, tails) ==>
      |e| > 0 && e[0] in heads && Picks(e[1..], rest)
  {
    if heads != [] {
      PrefixEachPicks(heads[1..], tails, rest);
      forall e | e in PrefixEach(heads, tails)
        ensures |e| > 0 && e[0] in heads && Picks(e[1..], rest)
      {
        if e in Prepend(heads[0], tails) {
          var j :| 0 <= j < |tails| && e == Prepend(heads[0], tails)[j];
          assert e[1..] == tails[j];
        } else {
          assert e in PrefixEach(heads[1..], tails);
        }
      }
    }
  }

  /** The mnemonic with each chosen value's text put in place of its
   * placeholder, in order. */
  function SubstMnemonic(mnemonic: string, chosen: seq<(string, SubstValue)>): string
    decreases |chosen|
  {
    if chosen == [] then mnemonic
    else SubstMnemonic(Replace(mnemonic, Placeholder(chosen[0].0), chosen[0].1.text), chosen[1..])
  }

  /** `subst_function(string, field)`: for each chosen value that has a text
   * for `field`, that text in place of its placeholder; with nothing
   * chosen, the identity. */
  function SubstField(s: string, field: string, chosen: seq<(string, SubstValue)>): string
    decreases |chosen|
  {
    if chosen == [] then s
    else
      var (name, value) := chosen[0];
      var s2 := if field in value.fields then Replace(s, Placeholder(name), value.fields[field]) else s;
      SubstField(s2, field, chosen[1..])
  }

  /** A text without any chosen placeholder passes through unchanged. */
  lemma {:induction false} SubstFieldAbsent(s: string, field: string, chosen: seq<(string, SubstValue)>)
    requires forall k :: 0 <= k < |chosen| ==> !Contains(s, Placeholder(chosen[k].0))
    ensures SubstField(s, field, chosen) == s
    decreases |chosen|
  {
    if chosen != [] {
      if field in chosen[0].1.fields {
        ReplaceAbsent(s, Placeholder(chosen[0].0), chosen[0].1.fields[field]);
      }
      assert forall k :: 1 <= k < |chosen| ==> chosen[1..][k - 1] == chosen[k];
      SubstFieldAbsent(s, field, chosen[1..]);
    }
  }

  /** One yielded variant: its mnemonic and the values it chose. */
  datatype Variant = Variant(mnemonic: string, chosen: seq<(string, SubstValue)>)

  function Names(used: Substitutions): (r: seq<string>)
    ensures |r| == |used|
    ensures forall k :: 0 <= k < |used| ==> r[k] == used[k].0
  {
    if used == [] then [] else [used[0].0] + Names(used[1..])
  }

  function ValueLists(used: Substitutions): (r: seq<seq<SubstValue>>)
    ensures |r| == |used|
    ensures forall k :: 0 <= k < |used| ==> r[k] == used[k].1
  {
    if used == [] then [] else [used[0].1] + ValueLists(used[1..])
  }

  function Zip(names: seq<string>, values: seq<SubstValue>): (r: seq<(string, SubstValue)>)
    requires |names| == |values|
    ensures |r| == |names|
    ensures forall k :: 0 <= k < |r| ==> r[k] == (names[k], values[k])
  {
    if names == [] then [] else [(names[0], values[0])] + Zip(names[1..], values[1..])
  }

  function VariantOf(mnemonic: string, names: seq<string>, values: seq<SubstValue>): Variant
    requires |names| == |values|
  {
    var chosen := Zip(names, values);
    Variant(SubstMnemonic(mnemonic, chosen), chosen)
  }

  function VariantsOf(mnemonic: string, names: seq<string>, tuples: seq<seq<SubstValue>>): (r: seq<Variant>)
    requires forall t :: t in tuples ==> |t| == |names|
    ensures |r| == |tuples|
    ensures forall k :: 0 <= k < |tuples| ==> r[k] == VariantOf(mnemonic, names, tuples[k])
  {
    if tuples == [] then [] else [VariantOf(mnemonic, names, tuples[0])] + VariantsOf(mnemonic, names, tuples[1..])
  }

  /** `substituted_instructions` for one mnemonic: the mnemonic itself with
   * nothing substituted when it holds no placeholder, otherwise one
   * variant per combination of the used substitutions' values. */
  function Variants(mnemonic: string, subs: Substitutions): (r: seq<Variant>)
  {
    var used := Used(subs, mnemonic);
    if used == [] then [Variant(mnemonic, [])]
    else
      var tuples := Product(ValueLists(used));
      ProductShape(ValueLists(used));
      VariantsOf(mnemonic, Names(used), tuples)
  }

  /** A mnemonic without placeholders is yielded once, unchanged, with the
   * identity substitution; otherwise there is one variant per element of
   * the product of the used substitutions' values, each choosing one value
   * per used placeholder. */
  lemma VariantsShape(mnemonic: string, subs: Substitutions)
    ensures Used(subs, mnemonic) == [] ==>
      Variants(mnemonic, subs) == [Variant(mnemonic, [])] &&
      forall s, field :: SubstField(s, field, Variants(mnemonic, subs)[0].chosen) == s
    ensures var used := Used(subs, mnemonic);
      used != [] ==>
        |Variants(mnemonic, subs)| == SizesProduct(ValueLists(used)) &&
        forall v :: v in Variants(mnemonic, subs) ==>
          |v.chosen| == |used| &&
          forall k :: 0 <= k < |used| ==> v.chosen[k].0 == used[k].0 && v.chosen[k].1 in used[k].1
  {
    var used := Used(subs, mnemonic);
    if used != [] {
      ProductShape(ValueLists(used));
      var tuples := Product(ValueLists(used));
      forall v | v in Variants(mnemonic, subs)
        ensures |v.chosen| == |used|
        ensures forall k :: 0 <= k < |used| ==> v.chosen[k].0 == used[k].0 && v.chosen[k].1 in used[k].1
      {
        var j :| 0 <= j < |tuples| && v == VariantsOf(mnemonic, Names(used), tuples)[j];
        assert Picks(tuples[j], ValueLists(used));
      }
    }
  }

  // ---------------------------------------------------------- the table

  /** An instruction of the description: its encoding pieces (before
   * substitution) and its arguments. */
  datatype Details = Details(encoding: seq<string>, args: ArgList)

  function SubstPieces(pieces: seq<string>, chosen: seq<(string, SubstValue)>): (r: seq<string>)
    ensures |r| == |pieces|
    ensures forall i :: 0 <= i < |pieces| ==> r[i] == SubstField(pieces[i], "encoding", chosen)
  {
    if pieces == [] then [] else [SubstField(pieces[0], "encoding", chosen)] + SubstPieces(pieces[1..], chosen)
  }

  /** The entries of one instruction's variants, in order; the first
   * failing variant stops the script. */
  function VariantEntries(variants: seq<Variant>, details: Details): (r: Result<seq<InstrDef>, GenError>)
  {
    if variants == [] then Ok([])
    else
      var v := variants[0];
      match Entry(v.mnemonic, SubstPieces(details.encoding, v.chosen), details.args)
      case Err(e) => Err(e)
      case Ok(d) =>
        match VariantEntries(variants[1..], details)
        case Err(e) => Err(e)
        case Ok(ds) => Ok([d] + ds)
  }

  /** The whole table: every instruction's variants in order. */
  function Generate(instructions: seq<(string, Details)>, subs: Substitutions): (r: Result<seq<InstrDef>, GenError>)
  {
    if instructions == [] then Ok([])
    else
      var (mnemonic, details) := instructions[0];
      match VariantEntries(Variants(mnemonic, subs), details)
      case Err(e) => Err(e)
      case Ok(ds) =>
        match Generate(instructions[1..], subs)
        case Err(e) => Err(e)
        case Ok(rest) => Ok(ds + rest)
  }

  lemma {:induction false} VariantEntriesValid(variants: seq<Variant>, details: Details)
    requires DistinctNames(details.args) && VariantEntries(variants, details).Ok?
    ensures forall d :: d in VariantEntries(variants, details).value ==> EntryValid(d)
  {
    if variants != [] {
      var v := variants[0];
      EntryIsValid(v.mnemonic, SubstPieces(details.encoding, v.chosen), details.args);
      VariantEntriesValid(variants[1..], details);
    }
  }

  /** Every entry of a generated table is valid, provided every
   * instruction's argument names are distinct (as keys of an object
   * are). */
  lemma {:induction false} GenerateValid(instructions: seq<(string, Details)>, subs: Substitutions)
    requires forall k :: 0 <= k < |instructions| ==> DistinctNames(instructions[k].1.args)
    requires Generate(instructions, subs).Ok?
    ensures forall d :: d in Generate(instructions, subs).value ==> EntryValid(d)
  {
    if instructions != [] {
      var head := VariantEntries(Variants(instructions[0].0, subs), instructions[0].1);
      var tail := Generate(instructions[1..], subs);
      assert head.Ok? && tail.Ok? && Generate(instructions, subs).value == head.value + tail.value;
      VariantEntriesValid(Variants(instructions[0].0, subs), instructions[0].1);
      assert forall k :: 1 <= k < |instructions| ==> instructions[1..][k - 1] == instructions[k];
      GenerateValid(instructions[1..], subs);
    }
  }
}
