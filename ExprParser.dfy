/** The assembler's precedence-climbing expression parser and evaluator
 * (`expr_parser.rs`). It reads tokens from a slice of one file and
 * evaluates as it parses, on `i32` with checked arithmetic; the assembler
 * state reaches it only through the symbol lookup, modelled as a map. */
module ExprParser {
  import opened Wrappers
  import opened Files
  import opened Tokens
  import opened I32
  import Arith

  datatype AsmError =
    | UndefinedSymbol(location: Location)
    | UnexpectedToken(location: Location)
    | UnexpectedEof
    | ValueOutOfRange(location: Location)
    | NegativeShiftAmount(location: Location)

  /** The `get_symbol` callback: the value of each defined symbol. */
  type Symbols = map<string, i32>

  /** A value, the location it was parsed from and the position of the
   * first token after it. */
  type Parsed = Result<(i32, Location, nat), AsmError>

  // ------------------------------------------------------------ operators

  /** `binary_operator_precedence`: C-like levels, `|` loosest and
   * `* / %` tightest; every other token is not a binary operator here. */
  function Precedence(t: Token): (r: Option<nat>)
    ensures r.Some? ==> r.value <= 6
  {
    match t
    case BitOr => Some(0)
    case BitXor => Some(1)
    case BitAnd => Some(2)
    case Eq | Neq | Lt | Gt | Le | Ge => Some(3)
    case Shl | Shr => Some(4)
    case Plus | Minus => Some(5)
    case Asterisk | Slash | Percent => Some(6)
    case _ => None
  }

  /** The operators `eval_binary_operator` knows: those with a precedence,
   * and the logical `&&` and `||`, which have none and are therefore never
   * reached through parsing. */
  predicate Evaluable(op: Token)
  {
    Precedence(op).Some? || op == LogicalAnd || op == LogicalOr
  }

  function FromBool(b: bool): (v: i32)
    ensures v == 0 || v == 1
    ensures v == 1 <==> b
  {
    if b then 1 else 0
  }

  /** The operator applied to two values: `None` where Rust's checked
   * operation is `None`. Shift amounts are already known not to be
   * negative. */
  function Apply(lhs: i32, rhs: i32, op: Token): Option<i32>
    requires Evaluable(op)
    requires op == Shl || op == Shr ==> rhs >= 0
  {
    match op
    case Asterisk => CheckedMul(lhs, rhs)
    case Slash => CheckedDiv(lhs, rhs)
    case Percent => CheckedRem(lhs, rhs)
    case Plus => CheckedAdd(lhs, rhs)
    case Minus => CheckedSub(lhs, rhs)
    case Shl => CheckedShl(lhs, rhs)
    case Shr => CheckedShr(lhs, rhs)
    case Eq => Some(FromBool(lhs == rhs))
    case Neq => Some(FromBool(lhs != rhs))
    case Lt => Some(FromBool(lhs < rhs))
    case Gt => Some(FromBool(lhs > rhs))
    case Le => Some(FromBool(lhs <= rhs))
    case Ge => Some(FromBool(lhs >= rhs))
    case LogicalAnd => Some(FromBool(lhs != 0 && rhs != 0))
    case LogicalOr => Some(FromBool(lhs != 0 || rhs != 0))
    case BitAnd => Some(I32.BitAnd(lhs, rhs))
    case BitXor => Some(I32.BitXor(lhs, rhs))
    case BitOr => Some(I32.BitOr(lhs, rhs))
  }

  /** `eval_binary_operator`: a negative shift amount is
   * `NegativeShiftAmount` at the right operand; any other failure of the
   * checked operation is `ValueOutOfRange` at the joined location, which is
   * also the location of a result. */
  function EvalBinary(lhs: i32, lhsLoc: Location, rhs: i32, rhsLoc: Location, op: Token): (r: Result<(i32, Location), AsmError>)
    requires Evaluable(op) && CanExtend(lhsLoc, rhsLoc)
    ensures r.Ok? ==> r.value.1 == ExtendTo(lhsLoc, rhsLoc)
    ensures (op == Shl || op == Shr) && rhs < 0 <==> r == Err(NegativeShiftAmount(rhsLoc))
    ensures r.Err? && r.error.ValueOutOfRange? ==> r.error.location == ExtendTo(lhsLoc, rhsLoc)
    ensures r.Err? ==> r.error.ValueOutOfRange? || r.error.NegativeShiftAmount?
  {
    var location := ExtendTo(lhsLoc, rhsLoc);
    if (op == Shl || op == Shr) && rhs < 0 then Err(NegativeShiftAmount(rhsLoc))
    else
      match Apply(lhs, rhs, op)
      case Some(x) => Ok((x, location))
      case None => Err(ValueOutOfRange(location))
  }

  /** Addition, subtraction and multiplication succeed exactly when the
   * mathematical result fits an `i32`, and then give it. */
  lemma EvalArithmetic(lhs: i32, lhsLoc: Location, rhs: i32, rhsLoc: Location, op: Token)
    requires op == Plus || op == Minus || op == Asterisk
    requires CanExtend(lhsLoc, rhsLoc)
    ensures var exact := if op == Plus then lhs + rhs else if op == Minus then lhs - rhs else lhs * rhs;
      var r := EvalBinary(lhs, lhsLoc, rhs, rhsLoc, op);
      (r.Ok? <==> InRange(exact)) && (r.Ok? ==> r.value.0 == exact)
      && (r.Err? ==> r.error == ValueOutOfRange(ExtendTo(lhsLoc, rhsLoc)))
  {
  }

  /** Division and remainder round toward zero and fail on a zero divisor
   * and on `i32::MIN / -1`. */
  lemma EvalDivision(lhs: i32, lhsLoc: Location, rhs: i32, rhsLoc: Location, op: Token)
    requires op == Slash || op == Percent
    requires CanExtend(lhsLoc, rhsLoc)
    ensures var r := EvalBinary(lhs, lhsLoc, rhs, rhsLoc, op);
      && (r.Ok? <==> rhs != 0 && !(lhs == Min && rhs == -1))
      && (r.Ok? ==> r.value.0 == if op == Slash then TruncDiv(lhs, rhs) else TruncRem(lhs, rhs))
      && (r.Ok? && op == Percent ==> Abs(r.value.0) < Abs(rhs))
  {
  }

  /** Shifts: a negative amount and an amount of 32 or more are errors;
   * `>>` is arithmetic, rounding toward negative infinity. */
  lemma EvalShift(lhs: i32, lhsLoc: Location, rhs: i32, rhsLoc: Location, op: Token)
    requires op == Shl || op == Shr
    requires CanExtend(lhsLoc, rhsLoc)
    ensures var r := EvalBinary(lhs, lhsLoc, rhs, rhsLoc, op);
      && (rhs < 0 ==> r == Err(NegativeShiftAmount(rhsLoc)))
      && (rhs >= 32 ==> r == Err(ValueOutOfRange(ExtendTo(lhsLoc, rhsLoc))))
      && (0 <= rhs < 32 ==> r.Ok?)
      && (0 <= rhs < 32 && op == Shl ==> (r.value.0 - lhs * Arith.Pow2(rhs)) % 0x1_0000_0000 == 0)
      && (0 <= rhs < 32 && op == Shr ==> r.value.0 * Arith.Pow2(rhs) <= lhs < (r.value.0 + 1) * Arith.Pow2(rhs))
  {
  }

  /** Comparisons never fail and give 1 exactly when the relation holds,
   * 0 otherwise. */
  lemma EvalComparison(lhs: i32, lhsLoc: Location, rhs: i32, rhsLoc: Location, op: Token)
    requires op == Eq || op == Neq || op == Lt || op == Gt || op == Le || op == Ge
    requires CanExtend(lhsLoc, rhsLoc)
    ensures var r := EvalBinary(lhs, lhsLoc, rhs, rhsLoc, op);
      var holds := match op
        case Eq => lhs == rhs
        case Neq => lhs != rhs
        case Lt => lhs < rhs
        case Gt => lhs > rhs
        case Le => lhs <= rhs
        case Ge => lhs >= rhs;
      r.Ok? && (r.value.0 == 0 || r.value.0 == 1) && (r.value.0 == 1 <==> holds)
  {
  }

  /** `&&` and `||` treat any non-zero value as true and give 0 or 1. */
  lemma EvalLogical(lhs: i32, lhsLoc: Location, rhs: i32, rhsLoc: Location, op: Token)
    requires op == LogicalAnd || op == LogicalOr
    requires CanExtend(lhsLoc, rhsLoc)
    ensures var r := EvalBinary(lhs, lhsLoc, rhs, rhsLoc, op);
      && r.Ok? && (r.value.0 == 0 || r.value.0 == 1)
      && (op == LogicalAnd ==> (r.value.0 == 1 <==> lhs != 0 && rhs != 0))
      && (op == LogicalOr ==> (r.value.0 == 1 <==> lhs != 0 || rhs != 0))
  {
  }

  // -------------------------------------------------------------- positions

  /* The parser passes `FileTokens` slices around, each the previous one
   * with some tokens dropped from the front. Here every slice is a position
   * in one token sequence `ft`: position `pos` is `Tokens.Slice(ft, pos)`. */

  /** The token at `pos` is a binary operator binding at least
   * `minPrecedence`. */
  predicate StartsWithOp(ft: Tokens, pos: nat, minPrecedence: nat)
  {
    pos < |ft.tokens| && Precedence(ft.tokens[pos].0).Some? && Precedence(ft.tokens[pos].0).value >= minPrecedence
  }

  /** A location in `ft`'s file that ends before the token at `pos`. */
  predicate Precedes(loc: Location, ft: Tokens, pos: nat)
  {
    && Ordered(loc) && !IsEmpty(loc) && loc.fileId == ft.fileId
    && (pos < |ft.tokens| ==> loc.end <= ft.tokens[pos].1.start)
  }

  /** `loc` extended over the tokens from `pos` up to `to`. */
  function Joined(loc: Location, ft: Tokens, pos: nat, to: nat): (r: Location)
    requires WellFormed(ft) && Precedes(loc, ft, pos) && pos <= to <= |ft.tokens|
    ensures Ordered(r) && !IsEmpty(r) && r.fileId == loc.fileId && r.start == loc.start
    ensures Precedes(r, ft, to)
  {
    if to == pos then loc
    else
      assert to - 1 > pos ==> ft.tokens[pos].1.end <= ft.tokens[to - 1].1.start;
      assert to < |ft.tokens| ==> ft.tokens[to - 1].1.end <= ft.tokens[to].1.start;
      Location(loc.start, ft.tokens[to - 1].1.end, loc.fileId)
  }

  /** The location of the token at `pos`. */
  function Here(ft: Tokens, pos: nat): (l: Location)
    requires WellFormed(ft) && pos < |ft.tokens|
    ensures l == Cover(ft, pos, pos + 1)
  {
    Location(ft.tokens[pos].1.start, ft.tokens[pos].1.end, ft.fileId)
  }

  /** `one_token`: the next token must be `expected`; it is consumed and
   * its location returned. */
  function OneToken(ft: Tokens, pos: nat, expected: Token): (r: Result<(Location, nat), AsmError>)
    requires WellFormed(ft) && pos <= |ft.tokens|
    ensures pos == |ft.tokens| ==> r == Err(UnexpectedEof)
    ensures pos < |ft.tokens| && ft.tokens[pos].0 != expected ==> r == Err(UnexpectedToken(Here(ft, pos)))
    ensures pos < |ft.tokens| && ft.tokens[pos].0 == expected ==> r == Ok((Here(ft, pos), pos + 1))
  {
    if pos == |ft.tokens| then Err(UnexpectedEof)
    else if ft.tokens[pos].0 == expected then Ok((Here(ft, pos), pos + 1))
    else Err(UnexpectedToken(Here(ft, pos)))
  }

  // --------------------------------------------------------------- parsing

  /** `expression`: a value, then binary operators of any precedence. The
   * result covers every token consumed and stops before a token that is
   * not a binary operator. */
  function Expression(ft: Tokens, pos: nat, syms: Symbols): (r: Parsed)
    requires WellFormed(ft) && pos <= |ft.tokens|
    ensures r.Ok? ==> pos < r.value.2 <= |ft.tokens| && r.value.1 == Cover(ft, pos, r.value.2)
    ensures r.Ok? ==> !StartsWithOp(ft, r.value.2, 0)
    decreases |ft.tokens| - pos, 3
  {
    match Value(ft, pos, syms)
    case Err(e) => Err(e)
    case Ok(v) =>
      assert v.2 < |ft.tokens| ==> ft.tokens[v.2 - 1].1.end <= ft.tokens[v.2].1.start;
      Main(v.0, v.1, 0, ft, v.2, syms)
  }

  /** `value`: a number, a defined symbol, a parenthesised expression or a
   * unary operator applied to a value. `-` is checked negation, `!` is 1
   * exactly for 0, `~` flips every bit. */
  function Value(ft: Tokens, pos: nat, syms: Symbols): (r: Parsed)
    requires WellFormed(ft) && pos <= |ft.tokens|
    ensures r.Ok? ==> pos < r.value.2 <= |ft.tokens| && r.value.1 == Cover(ft, pos, r.value.2)
    decreases |ft.tokens| - pos, 2
  {
    if pos == |ft.tokens| then Err(UnexpectedEof)
    else
      var loc := Here(ft, pos);
      match ft.tokens[pos].0
      case Number(n) => Ok((n, loc, pos + 1))
      case Identifier(name) =>
        if name in syms then Ok((syms[name], loc, pos + 1)) else Err(UndefinedSymbol(loc))
      case LParen => Parenthesised(ft, pos, syms)
      case Plus => UnaryOperand(ft, pos, syms)
      case Minus =>
        (match UnaryOperand(ft, pos, syms)
         case Err(e) => Err(e)
         case Ok(v) =>
           match CheckedNeg(v.0)
           case None => Err(ValueOutOfRange(v.1))
           case Some(x) => Ok((x, v.1, v.2)))
      case Not =>
        (match UnaryOperand(ft, pos, syms)
         case Err(e) => Err(e)
         case Ok(v) => Ok((FromBool(v.0 == 0), v.1, v.2)))
      case BitNot =>
        (match UnaryOperand(ft, pos, syms)
         case Err(e) => Err(e)
         case Ok(v) => Ok((I32.BitNot(v.0), v.1, v.2)))
      case _ => Err(UnexpectedToken(loc))
  }

  /** The expression after the `(` at `pos` and the `)` that must follow
   * it; the location runs from the `(` to the `)`. */
  function Parenthesised(ft: Tokens, pos: nat, syms: Symbols): (r: Parsed)
    requires WellFormed(ft) && pos < |ft.tokens|
    ensures r.Ok? ==> pos + 2 < r.value.2 <= |ft.tokens| && r.value.1 == Cover(ft, pos, r.value.2)
    decreases |ft.tokens| - pos, 1
  {
    match Expression(ft, pos + 1, syms)
    case Err(e) => Err(e)
    case Ok(e) =>
      match OneToken(ft, e.2, RParen)
      case Err(err) => Err(err)
      case Ok(c) => Ok((e.0, ExtendTo(Here(ft, pos), c.0), c.1))
  }

  /** The operand of the unary operator at `pos`: the value after it, its
   * location extended back over the operator. */
  function UnaryOperand(ft: Tokens, pos: nat, syms: Symbols): (r: Parsed)
    requires WellFormed(ft) && pos < |ft.tokens|
    ensures r.Ok? ==> pos + 1 < r.value.2 <= |ft.tokens| && r.value.1 == Cover(ft, pos, r.value.2)
    decreases |ft.tokens| - pos, 1
  {
    match Value(ft, pos + 1, syms)
    case Err(e) => Err(e)
    case Ok(v) => Ok((v.0, ExtendTo(Here(ft, pos), v.1), v.2))
  }

  /** `main`: while the next token is a binary operator of precedence at
   * least `minPrecedence`, consume it and its right operand, let the
   * operators that bind tighter than it take the right operand first,
   * then combine. */
  function Main(lhs: i32, loc: Location, minPrecedence: nat, ft: Tokens, pos: nat, syms: Symbols): (r: Parsed)
    requires WellFormed(ft) && pos <= |ft.tokens| && Precedes(loc, ft, pos)
    ensures r.Ok? ==> pos <= r.value.2 <= |ft.tokens| && r.value.1 == Joined(loc, ft, pos, r.value.2)
    ensures r.Ok? ==> !StartsWithOp(ft, r.value.2, minPrecedence)
    ensures r.Ok? ==> (r.value.2 == pos <==> !StartsWithOp(ft, pos, minPrecedence))
    ensures !StartsWithOp(ft, pos, minPrecedence) ==> r == Ok((lhs, loc, pos))
    decreases |ft.tokens| - pos, 0
  {
    if !StartsWithOp(ft, pos, minPrecedence) then Ok((lhs, loc, pos))
    else
      var op := ft.tokens[pos].0;
      match Value(ft, pos + 1, syms)
      case Err(e) => Err(e)
      case Ok(v) =>
        CoverPrecedes(ft, pos + 1, v.2);
        match Climb(v.0, v.1, Precedence(op).value, ft, v.2, syms)
        case Err(e) => Err(e)
        case Ok(c) =>
          OperandJoins(loc, ft, pos, v.2, c.2);
          match EvalBinary(lhs, loc, c.0, c.1, op)
          case Err(e) => Err(e)
          case Ok(x) =>
            var m := Main(x.0, x.1, minPrecedence, ft, c.2, syms);
            if m.Ok? then
              JoinedTwice(loc, ft, pos, c.2, m.value.2);
              m
            else m
  }

  /** The inner loop of `main`: as long as the next operator binds tighter
   * than `precedence`, the right operand absorbs it. */
  function Climb(rhs: i32, loc: Location, precedence: nat, ft: Tokens, pos: nat, syms: Symbols): (r: Parsed)
    requires WellFormed(ft) && pos <= |ft.tokens| && Precedes(loc, ft, pos)
    ensures r.Ok? ==> pos <= r.value.2 <= |ft.tokens| && r.value.1 == Joined(loc, ft, pos, r.value.2)
    ensures r.Ok? ==> !StartsWithOp(ft, r.value.2, precedence + 1)
    ensures !StartsWithOp(ft, pos, precedence + 1) ==> r == Ok((rhs, loc, pos))
    decreases |ft.tokens| - pos, 1
  {
    if !StartsWithOp(ft, pos, precedence + 1) then Ok((rhs, loc, pos))
    else
      match Main(rhs, loc, precedence + 1, ft, pos, syms)
      case Err(e) => Err(e)
      case Ok(m) => Climb(m.0, m.1, precedence, ft, m.2, syms)
  }

  /** `main` as written: an outer loop over operators of at least
   * `minPrecedence`, and for each an inner loop that lets tighter operators
   * take its right operand through a recursive call. */
  method MainLoop(lhs0: i32, loc0: Location, minPrecedence: nat, ft: Tokens, pos0: nat, syms: Symbols) returns (r: Parsed)
    requires WellFormed(ft) && pos0 <= |ft.tokens| && Precedes(loc0, ft, pos0)
    ensures r == Main(lhs0, loc0, minPrecedence, ft, pos0, syms)
    decreases |ft.tokens| - pos0, 0
  {
    var lhs, loc, pos := lhs0, loc0, pos0;
    while StartsWithOp(ft, pos, minPrecedence)
      invariant pos0 <= pos <= |ft.tokens| && Precedes(loc, ft, pos)
      invariant Main(lhs0, loc0, minPrecedence, ft, pos0, syms) == Main(lhs, loc, minPrecedence, ft, pos, syms)
      decreases |ft.tokens| - pos
    {
      var op := ft.tokens[pos].0;
      var opPrecedence := Precedence(op).value;
      var v := Value(ft, pos + 1, syms);
      if v.Err? {
        return Err(v.error);
      }
      CoverPrecedes(ft, pos + 1, v.value.2);
      var c := ClimbLoop(v.value.0, v.value.1, opPrecedence, ft, v.value.2, syms);
      if c.Err? {
        return Err(c.error);
      }
      OperandJoins(loc, ft, pos, v.value.2, c.value.2);
      var x := EvalBinary(lhs, loc, c.value.0, c.value.1, op);
      if x.Err? {
        return Err(x.error);
      }
      lhs, loc, pos := x.value.0, x.value.1, c.value.2;
    }
    return Ok((lhs, loc, pos));
  }

  /** The inner loop of `main` as written. */
  method ClimbLoop(rhs0: i32, loc0: Location, precedence: nat, ft: Tokens, pos0: nat, syms: Symbols) returns (r: Parsed)
    requires WellFormed(ft) && pos0 <= |ft.tokens| && Precedes(loc0, ft, pos0)
    ensures r == Climb(rhs0, loc0, precedence, ft, pos0, syms)
    decreases |ft.tokens| - pos0, 1
  {
    var rhs, rhsLoc, p := rhs0, loc0, pos0;
    while StartsWithOp(ft, p, precedence + 1)
      invariant pos0 <= p <= |ft.tokens| && Precedes(rhsLoc, ft, p)
      invariant Climb(rhs0, loc0, precedence, ft, pos0, syms) == Climb(rhs, rhsLoc, precedence, ft, p, syms)
      decreases |ft.tokens| - p
    {
      var m := MainLoop(rhs, rhsLoc, precedence + 1, ft, p, syms);
      if m.Err? {
        return Err(m.error);
      }
      rhs, rhsLoc, p := m.value.0, m.value.1, m.value.2;
    }
    return Ok((rhs, rhsLoc, p));
  }

  // ------------------------------------------------------ location lemmas

  lemma CoverPrecedes(ft: Tokens, from: nat, to: nat)
    requires WellFormed(ft) && from < to <= |ft.tokens|
    ensures Precedes(Cover(ft, from, to), ft, to)
  {
    assert to < |ft.tokens| ==> ft.tokens[to - 1].1.end <= ft.tokens[to].1.start;
  }

  /** The operator at `pos` and its right operand from `pos + 1` to `mid`,
   * climbed up to `to`: joining it to a left operand that precedes `pos`
   * covers everything from the left operand to `to`. */
  lemma OperandJoins(loc: Location, ft: Tokens, pos: nat, mid: nat, to: nat)
    requires WellFormed(ft) && Precedes(loc, ft, pos) && pos + 1 < mid <= to <= |ft.tokens|
    ensures Precedes(Cover(ft, pos + 1, mid), ft, mid)
    ensures var rhsLoc := Joined(Cover(ft, pos + 1, mid), ft, mid, to);
      CanExtend(loc, rhsLoc) && ExtendTo(loc, rhsLoc) == Joined(loc, ft, pos, to)
  {
    CoverPrecedes(ft, pos + 1, mid);
    assert ft.tokens[pos].1.end <= ft.tokens[pos + 1].1.start;
  }

  /** Joining in two steps is joining once over everything. */
  lemma JoinedTwice(loc: Location, ft: Tokens, pos: nat, mid: nat, to: nat)
    requires WellFormed(ft) && Precedes(loc, ft, pos) && pos <= mid <= to <= |ft.tokens|
    ensures Joined(Joined(loc, ft, pos, mid), ft, mid, to) == Joined(loc, ft, pos, to)
  {
  }

  // ------------------------------------------- precedence and grouping

  /** The value an operator gives when it succeeds, errors aside. */
  function Eval(a: i32, op: Token, b: i32): (r: Option<i32>)
    requires Evaluable(op)
  {
    if (op == Shl || op == Shr) && b < 0 then None else Apply(a, b, op)
  }

  lemma EvalBinaryValue(a: i32, aLoc: Location, b: i32, bLoc: Location, op: Token)
    requires Evaluable(op) && CanExtend(aLoc, bLoc)
    ensures var r := EvalBinary(a, aLoc, b, bLoc, op);
      (r.Ok? <==> Eval(a, op, b).Some?) && (r.Ok? ==> r.value.0 == Eval(a, op, b).value)
  {
  }

  /** `a op1 b op2 c` where `op2` binds tighter: `b op2 c` is evaluated
   * first. All five tokens are consumed. */
  lemma TighterSecond(a: i32, op1: Token, b: i32, op2: Token, c: i32, syms: Symbols)
    requires Precedence(op1).Some? && Precedence(op2).Some?
    requires Precedence(op2).value > Precedence(op1).value
    ensures var r := Expression(Lay([Number(a), op1, Number(b), op2, Number(c)]), 0, syms);
      && (r.Ok? <==> Eval(b, op2, c).Some? && Eval(a, op1, Eval(b, op2, c).value).Some?)
      && (r.Ok? ==> r.value.0 == Eval(a, op1, Eval(b, op2, c).value).value && r.value.2 == 5)
  {
    var ft := Lay([Number(a), op1, Number(b), op2, Number(c)]);
    var p1, p2 := Precedence(op1).value, Precedence(op2).value;
    var h0, h2, h4 := Here(ft, 0), Here(ft, 2), Here(ft, 4);
    assert Value(ft, 0, syms) == Ok((a, h0, 1));
    assert Value(ft, 2, syms) == Ok((b, h2, 3));
    assert Value(ft, 4, syms) == Ok((c, h4, 5));
    assert Climb(c, h4, p2, ft, 5, syms) == Ok((c, h4, 5));
    EvalBinaryValue(b, h2, c, h4, op2);
    var bc := EvalBinary(b, h2, c, h4, op2);
    RightOperandClimbs(ft, b, op2, c, p1, syms);
    if bc.Ok? {
      EvalBinaryValue(a, h0, bc.value.0, bc.value.1, op1);
      var abc := EvalBinary(a, h0, bc.value.0, bc.value.1, op1);
      assert Main(a, h0, 0, ft, 1, syms) == if abc.Ok? then Main(abc.value.0, abc.value.1, 0, ft, 5, syms) else Err(abc.error);
    }
  }

  /** In `_ op1 b op2 c` with a tighter `op2`, the climb from `b` takes
   * `op2 c` and stops at the end. */
  lemma RightOperandClimbs(ft: Tokens, b: i32, op2: Token, c: i32, p1: nat, syms: Symbols)
    requires WellFormed(ft) && |ft.tokens| == 5
    requires ft.tokens[2].0 == Number(b) && ft.tokens[3].0 == op2 && ft.tokens[4].0 == Number(c)
    requires Precedence(op2).Some? && Precedence(op2).value > p1
    ensures var bc := EvalBinary(b, Here(ft, 2), c, Here(ft, 4), op2);
      Climb(b, Here(ft, 2), p1, ft, 3, syms) == if bc.Ok? then Ok((bc.value.0, bc.value.1, 5)) else Err(bc.error)
  {
    var h2, h4 := Here(ft, 2), Here(ft, 4);
    var p2 := Precedence(op2).value;
    assert Value(ft, 4, syms) == Ok((c, h4, 5));
    assert Climb(c, h4, p2, ft, 5, syms) == Ok((c, h4, 5));
    var bc := EvalBinary(b, h2, c, h4, op2);
    if bc.Ok? {
      assert Main(b, h2, p1 + 1, ft, 3, syms) == Main(bc.value.0, bc.value.1, p1 + 1, ft, 5, syms);
    } else {
      assert Main(b, h2, p1 + 1, ft, 3, syms).Err?;
    }
  }

  /** `a op1 b op2 c` where `op2` binds no tighter: `a op1 b` is evaluated
   * first, so equal precedence groups to the left. */
  lemma LooserSecond(a: i32, op1: Token, b: i32, op2: Token, c: i32, syms: Symbols)
    requires Precedence(op1).Some? && Precedence(op2).Some?
    requires Precedence(op2).value <= Precedence(op1).value
    ensures var r := Expression(Lay([Number(a), op1, Number(b), op2, Number(c)]), 0, syms);
      && (r.Ok? <==> Eval(a, op1, b).Some? && Eval(Eval(a, op1, b).value, op2, c).Some?)
      && (r.Ok? ==> r.value.0 == Eval(Eval(a, op1, b).value, op2, c).value && r.value.2 == 5)
  {
    var ft := Lay([Number(a), op1, Number(b), op2, Number(c)]);
    var p1, p2 := Precedence(op1).value, Precedence(op2).value;
    var h0, h2, h4 := Here(ft, 0), Here(ft, 2), Here(ft, 4);
    assert Value(ft, 0, syms) == Ok((a, h0, 1));
    assert Value(ft, 2, syms) == Ok((b, h2, 3));
    assert Climb(b, h2, p1, ft, 3, syms) == Ok((b, h2, 3));
    EvalBinaryValue(a, h0, b, h2, op1);
    var ab := EvalBinary(a, h0, b, h2, op1);
    if ab.Ok? {
      assert Value(ft, 4, syms) == Ok((c, h4, 5));
      assert Climb(c, h4, p2, ft, 5, syms) == Ok((c, h4, 5));
      EvalBinaryValue(ab.value.0, ab.value.1, c, h4, op2);
      var abc := EvalBinary(ab.value.0, ab.value.1, c, h4, op2);
      assert Main(ab.value.0, ab.value.1, 0, ft, 3, syms) == if abc.Ok? then Main(abc.value.0, abc.value.1, 0, ft, 5, syms) else Err(abc.error);
      assert Main(a, h0, 0, ft, 1, syms) == Main(ab.value.0, ab.value.1, 0, ft, 3, syms);
    } else {
      assert Main(a, h0, 0, ft, 1, syms).Err?;
    }
  }

  // ------------------------------------------------------------- examples

  /** `1 + 2 * 3` is 7. */
  lemma ExampleSimplePriority()
    ensures var r := Expression(Lay([Number(1), Plus, Number(2), Asterisk, Number(3)]), 0, map[]);
      r.Ok? && r.value.0 == 7
  {
    TighterSecond(1, Plus, 2, Asterisk, 3, map[]);
  }

  /** `3 * 2 + 1` is 7. */
  lemma ExampleSimplePriority2()
    ensures var r := Expression(Lay([Number(3), Asterisk, Number(2), Plus, Number(1)]), 0, map[]);
      r.Ok? && r.value.0 == 7
  {
    LooserSecond(3, Asterisk, 2, Plus, 1, map[]);
  }

  /** `5 * 2 / 3` is 3: left to right, `(5 * 2) / 3`, not `5 * (2 / 3)`. */
  lemma ExampleLeftAssociativity()
    ensures var r := Expression(Lay([Number(5), Asterisk, Number(2), Slash, Number(3)]), 0, map[]);
      r.Ok? && r.value.0 == 3
  {
    LooserSecond(5, Asterisk, 2, Slash, 3, map[]);
    assert Eval(5, Asterisk, 2) == Some(10);
    assert TruncDiv(10, 3) == 3;
    assert Eval(10, Slash, 3) == Some(3);
  }

  /** `1 - 9` is -8, covering all three tokens. */
  lemma ExampleSubtract()
    ensures Expression(Lay([Number(1), Minus, Number(9)]), 0, map[]) == Ok((-8, Location(0, 5, 0), 3))
  {
    OneOperator(1, Minus, 9, map[]);
  }

  /** `0b110010 >> 3` is `0b110`. */
  lemma ExampleShiftRight()
    ensures Expression(Lay([Number(50), Shr, Number(3)]), 0, map[]) == Ok((6, Location(0, 5, 0), 3))
  {
    OneOperator(50, Shr, 3, map[]);
    assert Arith.Pow2(3) == 8;
  }

  /** `1 + 1 2 + 2` is 2: parsing stops at the second number. */
  lemma ExampleJunkAfter()
    ensures var r := Expression(Lay([Number(1), Plus, Number(1), Number(2), Plus, Number(2)]), 0, map[]);
      r.Ok? && r.value.0 == 2 && r.value.2 == 3
  {
    var ft := Lay([Number(1), Plus, Number(1), Number(2), Plus, Number(2)]);
    assert Value(ft, 0, map[]) == Ok((1, Here(ft, 0), 1));
    assert Value(ft, 2, map[]) == Ok((1, Here(ft, 2), 3));
  }

  /** `1 / 0` is out of range over the whole expression. */
  lemma ExampleDivideByZero()
    ensures Expression(Lay([Number(1), Slash, Number(0)]), 0, map[]) == Err(ValueOutOfRange(Location(0, 5, 0)))
  {
    OneOperator(1, Slash, 0, map[]);
    EvalDivision(1, Location(0, 1, 0), 0, Location(4, 5, 0), Slash);
  }

  /** `1 << -2` is a negative shift amount, located at `-2`. */
  lemma ExampleNegativeShift()
    ensures Expression(Lay([Number(1), Shl, Minus, Number(2)]), 0, map[]) == Err(NegativeShiftAmount(Location(4, 7, 0)))
  {
    var ft := Lay([Number(1), Shl, Minus, Number(2)]);
    NegativeShiftOperands(ft);
    assert Main(1, Here(ft, 0), 0, ft, 1, map[]) == Err(NegativeShiftAmount(Location(4, 7, 0)));
  }

  /** The operands of `1 << -2`: the number 1, and `-2` ending the input. */
  lemma NegativeShiftOperands(ft: Tokens)
    requires ft == Lay([Number(1), Shl, Minus, Number(2)])
    ensures Value(ft, 0, map[]) == Ok((1, Here(ft, 0), 1))
    ensures Value(ft, 2, map[]) == Ok((-2, Location(4, 7, 0), 4))
    ensures Climb(-2, Location(4, 7, 0), 4, ft, 4, map[]) == Ok((-2, Location(4, 7, 0), 4))
  {
    assert Value(ft, 3, map[]) == Ok((2, Here(ft, 3), 4));
    assert UnaryOperand(ft, 2, map[]) == Ok((2, Location(4, 7, 0), 4));
    assert ft.tokens[2].0 == Minus;
    ValueNegated(ft, 2, map[]);
  }

  /** A single binary operator between two numbers is evaluated over the
   * three tokens. */
  lemma OneOperator(a: i32, op: Token, b: i32, syms: Symbols)
    requires Precedence(op).Some?
    ensures var l := Location(0, 5, 0);
      var r := EvalBinary(a, Location(0, 1, 0), b, Location(4, 5, 0), op);
      Expression(Lay([Number(a), op, Number(b)]), 0, syms) == if r.Ok? then Ok((r.value.0, l, 3)) else Err(r.error)
  {
    var ft := Lay([Number(a), op, Number(b)]);
    var h0, h2 := Here(ft, 0), Here(ft, 2);
    assert Value(ft, 0, syms) == Ok((a, h0, 1));
    assert Value(ft, 2, syms) == Ok((b, h2, 3));
    assert Climb(b, h2, Precedence(op).value, ft, 3, syms) == Ok((b, h2, 3));
    var r := EvalBinary(a, h0, b, h2, op);
    if r.Ok? {
      assert Main(r.value.0, r.value.1, 0, ft, 3, syms) == Ok((r.value.0, r.value.1, 3));
    }
  }

  /** `-(-2147483647 - 1)` overflows the negation. */
  lemma ExampleNegationOverflow()
    ensures Expression(Lay([Minus, LParen, Minus, Number(0x7fff_ffff), Minus, Number(1), RParen]), 0, map[]).Err?
  {
    var ft := Lay([Minus, LParen, Minus, Number(0x7fff_ffff), Minus, Number(1), RParen]);
    NegationOverflowInner(ft);
    assert ft.tokens[1].0 == LParen && ft.tokens[6].0 == RParen;
    assert Parenthesised(ft, 1, map[]) == Ok((-0x8000_0000, Cover(ft, 1, 7), 7));
    ValueParenthesised(ft, 1, map[]);
    assert UnaryOperand(ft, 0, map[]) == Ok((-0x8000_0000, Cover(ft, 0, 7), 7));
    assert ft.tokens[0].0 == Minus;
    ValueNegated(ft, 0, map[]);
  }

  /** A `(` starts a parenthesised expression. */
  lemma ValueParenthesised(ft: Tokens, pos: nat, syms: Symbols)
    requires WellFormed(ft) && pos < |ft.tokens| && ft.tokens[pos].0 == LParen
    ensures Value(ft, pos, syms) == Parenthesised(ft, pos, syms)
  {
  }

  /** A `-` negates its operand, failing on the one value whose negation
   * does not fit. */
  lemma ValueNegated(ft: Tokens, pos: nat, syms: Symbols)
    requires WellFormed(ft) && pos < |ft.tokens| && ft.tokens[pos].0 == Minus
    ensures var v := UnaryOperand(ft, pos, syms);
      v.Ok? && v.value.0 == Min ==> Value(ft, pos, syms) == Err(ValueOutOfRange(v.value.1))
    ensures var v := UnaryOperand(ft, pos, syms);
      v.Ok? && v.value.0 != Min ==> Value(ft, pos, syms) == Ok((-v.value.0, v.value.1, v.value.2))
  {
  }

  lemma NegationOverflowInner(ft: Tokens)
    requires ft == Lay([Minus, LParen, Minus, Number(0x7fff_ffff), Minus, Number(1), RParen])
    ensures Expression(ft, 2, map[]) == Ok((-0x8000_0000, Cover(ft, 2, 6), 6))
  {
    NegationOverflowValue(ft);
    assert Value(ft, 5, map[]) == Ok((1, Here(ft, 5), 6));
    assert Climb(1, Here(ft, 5), 5, ft, 6, map[]) == Ok((1, Here(ft, 5), 6));
  }

  lemma NegationOverflowValue(ft: Tokens)
    requires ft == Lay([Minus, LParen, Minus, Number(0x7fff_ffff), Minus, Number(1), RParen])
    ensures Value(ft, 2, map[]) == Ok((-0x7fff_ffff, Cover(ft, 2, 4), 4))
  {
    assert Value(ft, 3, map[]) == Ok((0x7fff_ffff, Here(ft, 3), 4));
  }

  /** Unary operators: `+-~!0` is 2, and the value stops before a
   * following `+`. */
  lemma ExampleAllUnary()
    ensures Value(Lay([Plus, Minus, BitNot, Not, Number(0), Plus]), 0, map[]) == Ok((2, Location(0, 9, 0), 5))
  {
    var ft := Lay([Plus, Minus, BitNot, Not, Number(0), Plus]);
    ExampleAllUnaryInner(ft);
    assert UnaryOperand(ft, 1, map[]) == Ok((-2, Cover(ft, 1, 5), 5));
    assert Value(ft, 1, map[]) == Ok((2, Cover(ft, 1, 5), 5));
    assert UnaryOperand(ft, 0, map[]) == Ok((2, Cover(ft, 0, 5), 5));
  }

  lemma ExampleAllUnaryInner(ft: Tokens)
    requires ft == Lay([Plus, Minus, BitNot, Not, Number(0), Plus])
    ensures Value(ft, 2, map[]) == Ok((-2, Cover(ft, 2, 5), 5))
  {
    assert Value(ft, 4, map[]) == Ok((0, Here(ft, 4), 5));
    assert UnaryOperand(ft, 3, map[]) == Ok((0, Cover(ft, 3, 5), 5));
    assert Value(ft, 3, map[]) == Ok((1, Cover(ft, 3, 5), 5));
    assert UnaryOperand(ft, 2, map[]) == Ok((1, Cover(ft, 2, 5), 5));
  }

  /** `!foo` is 0 when `foo` is 13. */
  lemma ExampleNotSymbol()
    ensures Value(Lay([Not, Identifier("foo"), Plus]), 0, map["foo" := 13]) == Ok((0, Location(0, 3, 0), 2))
  {
    var ft := Lay([Not, Identifier("foo"), Plus]);
    assert Value(ft, 1, map["foo" := 13]) == Ok((13, Here(ft, 1), 2));
  }

  /** Missing operands and parentheses: an empty input, `bar` undefined,
   * `(1` and `()`. */
  lemma ExampleValueErrors()
    ensures Value(Lay([]), 0, map[]) == Err(UnexpectedEof)
    ensures Value(Lay([Identifier("bar")]), 0, map[]) == Err(UndefinedSymbol(Location(0, 1, 0)))
    ensures Value(Lay([LParen, Number(1)]), 0, map[]) == Err(UnexpectedEof)
    ensures Value(Lay([LParen, RParen]), 0, map[]) == Err(UnexpectedToken(Location(2, 3, 0)))
  {
    var ft := Lay([LParen, Number(1)]);
    assert Value(ft, 1, map[]) == Ok((1, Here(ft, 1), 2));
    var ft2 := Lay([LParen, RParen]);
    assert Value(ft2, 1, map[]) == Err(UnexpectedToken(Location(2, 3, 0)));
  }
}
