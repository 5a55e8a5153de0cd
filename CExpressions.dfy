/** The C assembler's expression evaluator (`assembler/expressions.c`): a
 * shunting-yard scan with a value stack and an operator stack, computing
 * on `int32_t` as C does. A symbol's value comes from the assembler's
 * symbol table, which a first-pass reference may extend. */
module CExpressions {
  import opened Wrappers
  import I32
  import Arith
  import opened CTokenizer
  import AsmTables

  type i32 = I32.i32

  // -------------------------------------------------------- C arithmetic

  /** `v1 << v2` on `int32_t`: undefined for a shift outside 0..31, a
   * negative left operand, or a result that does not fit. */
  function ShiftLeft(a: i32, s: i32): (r: Option<i32>)
    ensures r.Some? <==> 0 <= s < 32 && a >= 0 && a * Arith.Pow2(s) <= I32.Max
    ensures r.Some? ==> r.value == a * Arith.Pow2(s)
  {
    if 0 <= s < 32 && a >= 0 && a * Arith.Pow2(s) <= I32.Max then Some(a * Arith.Pow2(s)) else None
  }

  /** `v1 >> v2` on `int32_t`: undefined for a shift outside 0..31; a
   * negative left operand shifts arithmetically, as the usual compilers
   * define it. */
  function ShiftRight(a: i32, s: i32): (r: Option<i32>)
    ensures r.Some? <==> 0 <= s < 32
    ensures r.Some? ==> r.value * Arith.Pow2(s) <= a < (r.value + 1) * Arith.Pow2(s)
  {
    if 0 <= s < 32 then I32.CheckedShr(a, s) else None
  }

  /** The operator functions; `Paren` has none. */
  datatype Fun =
    | LogicalOr | LogicalAnd | BitwiseOr | BitwiseXor | BitwiseAnd
    | Eq | Neq | Lt | Gt | Le | Ge | Shl | Shr
    | Add | Sub | Mul | Divide | Mod
    | LogicalNot | BitwiseNot | UnaryPlus | UnaryMinus
    | Paren

  /** The `fun` field of an operator table entry, as a function of
   * `(v1, v2)`; `Paren` has none. */
  function FunctionOf(f: Fun): (i32, i32) -> Option<i32>
  {
    match f
    case LogicalOr => (v1: i32, v2: i32) => Some(if v1 != 0 || v2 != 0 then 1 else 0)
    case LogicalAnd => (v1: i32, v2: i32) => Some(if v1 != 0 && v2 != 0 then 1 else 0)
    case BitwiseOr => (v1: i32, v2: i32) => Some(I32.BitOr(v1, v2))
    case BitwiseXor => (v1: i32, v2: i32) => Some(I32.BitXor(v1, v2))
    case BitwiseAnd => (v1: i32, v2: i32) => Some(I32.BitAnd(v1, v2))
    case Eq => (v1: i32, v2: i32) => Some(if v1 == v2 then 1 else 0)
    case Neq => (v1: i32, v2: i32) => Some(if v1 != v2 then 1 else 0)
    case Lt => (v1: i32, v2: i32) => Some(if v1 < v2 then 1 else 0)
    case Gt => (v1: i32, v2: i32) => Some(if v1 > v2 then 1 else 0)
    case Le => (v1: i32, v2: i32) => Some(if v1 <= v2 then 1 else 0)
    case Ge => (v1: i32, v2: i32) => Some(if v1 >= v2 then 1 else 0)
    case Shl => (v1: i32, v2: i32) => ShiftLeft(v1, v2)
    case Shr => (v1: i32, v2: i32) => ShiftRight(v1, v2)
    case Add => (v1: i32, v2: i32) => I32.CheckedAdd(v1, v2)
    case Sub => (v1: i32, v2: i32) => I32.CheckedSub(v1, v2)
    case Mul => (v1: i32, v2: i32) => I32.CheckedMul(v1, v2)
    case Divide => (v1: i32, v2: i32) => I32.CheckedDiv(v1, v2)
    case Mod => (v1: i32, v2: i32) => I32.CheckedRem(v1, v2)
    case LogicalNot => (_: i32, v: i32) => Some(if v == 0 then 1 else 0)
    case BitwiseNot => (_: i32, v: i32) => Some(I32.BitNot(v))
    case UnaryPlus => (_: i32, v: i32) => Some(v)
    case UnaryMinus => (_: i32, v: i32) => I32.CheckedNeg(v)
    case Paren => (_: i32, _: i32) => None
  }

  /** `op.fun(v1, v2)`; a unary operator gets 0 as `v1`. `None` is C's
   * undefined behaviour: overflow, a zero divisor, a bad shift. */
  function Apply(f: Fun, v1: i32, v2: i32): (r: Option<i32>)
    ensures f in {LogicalOr, LogicalAnd, Eq, Neq, Lt, Gt, Le, Ge, LogicalNot} ==> r.Some? && (r.value == 0 || r.value == 1)
    ensures r.None? ==> f in {Shl, Shr, Add, Sub, Mul, Divide, Mod, UnaryMinus, Paren}
    ensures f == Add && r.Some? ==> r.value as int == v1 as int + v2 as int
    ensures f == Sub && r.Some? ==> r.value as int == v1 as int - v2 as int
    ensures f == Mul && r.Some? ==> r.value as int == v1 as int * v2 as int
    ensures f == UnaryMinus && r.Some? ==> r.value as int == -(v2 as int)
  {
    FunctionOf(f)(v1, v2)
  }

  // ------------------------------------------------------ operator table

  /** The token of a table entry. */
  function TokenOf(f: Fun): Token
  {
    match f
    case LogicalOr => Operator(OpLogicalOr)
    case LogicalAnd => Operator(OpLogicalAnd)
    case BitwiseOr => Char('|')
    case BitwiseXor => Char('^')
    case BitwiseAnd => Char('&')
    case Eq => Operator(OpEq)
    case Neq => Operator(OpNeq)
    case Lt => Char('<')
    case Gt => Char('>')
    case Le => Operator(OpLe)
    case Ge => Operator(OpGe)
    case Shl => Operator(OpShl)
    case Shr => Operator(OpShr)
    case Add => Char('+')
    case Sub => Char('-')
    case Mul => Char('*')
    case Divide => Char('/')
    case Mod => Char('%')
    case LogicalNot => Char('!')
    case BitwiseNot => Char('~')
    case UnaryPlus => Char('+')
    case UnaryMinus => Char('-')
    case Paren => Char('(')
  }

  /** The priority of a table entry: 0 binds loosest. */
  function Priority(f: Fun): nat
  {
    match f
    case LogicalOr => 0
    case LogicalAnd => 1
    case BitwiseOr => 2
    case BitwiseXor => 3
    case BitwiseAnd => 4
    case Eq | Neq | Lt | Gt | Le | Ge => 5
    case Shl | Shr => 6
    case Add | Sub => 7
    case Mul | Divide | Mod => 8
    case LogicalNot | BitwiseNot | UnaryPlus | UnaryMinus => 9
    case Paren => 10
  }

  function Arity(f: Fun): nat
  {
    match f
    case LogicalNot | BitwiseNot | UnaryPlus | UnaryMinus => 1
    case Paren => 0
    case _ => 2
  }

  /** The table in its order; every entry is one function. */
  const Table: seq<Fun> := [
    LogicalOr, LogicalAnd, BitwiseOr, BitwiseXor, BitwiseAnd,
    Eq, Neq, Lt, Gt, Le, Ge, Shl, Shr, Add, Sub, Mul, Divide, Mod,
    LogicalNot, BitwiseNot, UnaryPlus, UnaryMinus, Paren]

  /** The entry `find_operator` finds for a token: a binary one exactly
   * when the previous item was a value. */
  function OperatorFor(t: Token, binary: bool): (r: Option<Fun>)
    ensures r.Some? ==> TokenOf(r.value) == t && (binary <==> Arity(r.value) == 2)
  {
    match t
    case Operator(op) =>
      if !binary || op == OpPower then None
      else Some(match op
        case OpLogicalOr => LogicalOr case OpLogicalAnd => LogicalAnd
        case OpEq => Eq case OpNeq => Neq case OpLe => Le case OpGe => Ge
        case OpShl => Shl case OpShr => Shr)
    case Char(c) =>
      if binary then
        (match c
         case '|' => Some(BitwiseOr) case '^' => Some(BitwiseXor) case '&' => Some(BitwiseAnd)
         case '<' => Some(Lt) case '>' => Some(Gt) case '+' => Some(Add) case '-' => Some(Sub)
         case '*' => Some(Mul) case '/' => Some(Divide) case '%' => Some(Mod)
         case _ => None)
      else
        (match c
         case '!' => Some(LogicalNot) case '~' => Some(BitwiseNot) case '+' => Some(UnaryPlus)
         case '-' => Some(UnaryMinus) case '(' => Some(Paren)
         case _ => None)
    case _ => None
  }

  /** Every entry is found by its own token and arity. */
  lemma OperatorForEntry(f: Fun)
    ensures OperatorFor(TokenOf(f), Arity(f) == 2) == Some(f)
  {
  }

  /** `find_operator` misses exactly the tokens no entry has. */
  lemma OperatorForComplete(t: Token, binary: bool)
    ensures OperatorFor(t, binary).None? <==> forall f :: !(TokenOf(f) == t && (binary <==> Arity(f) == 2))
  {
    if OperatorFor(t, binary).None? {
      forall f | TokenOf(f) == t && (binary <==> Arity(f) == 2)
        ensures false
      {
        OperatorForEntry(f);
      }
    }
  }

  /** `find_operator`: a walk along the table to the first entry with the
   * token and the wanted arity. */
  method FindOperator(t: Token, binary: bool) returns (r: Option<Fun>)
    ensures r == OperatorFor(t, binary)
  {
    var k := 0;
    while k < |Table|
      invariant k <= |Table|
      invariant forall j :: 0 <= j < k ==> !(TokenOf(Table[j]) == t && (binary == (Arity(Table[j]) == 2)))
    {
      if TokenOf(Table[k]) == t && (binary == (Arity(Table[k]) == 2)) {
        OperatorForEntry(Table[k]);
        return Some(Table[k]);
      }
      k := k + 1;
    }
    if OperatorFor(t, binary).Some? {
      InTable(OperatorFor(t, binary).value);
    }
    return None;
  }

  lemma InTable(f: Fun)
    ensures f in Table
  {
  }

  /** After a value `+` and `-` are the binary operators, elsewhere the
   * unary ones; `(` is only an operator where a value is expected, and a
   * binary-only operator is none there. */
  lemma OperatorChoice()
    ensures OperatorFor(Char('+'), true) == Some(Add) && OperatorFor(Char('+'), false) == Some(UnaryPlus)
    ensures OperatorFor(Char('-'), true) == Some(Sub) && OperatorFor(Char('-'), false) == Some(UnaryMinus)
    ensures OperatorFor(Char('('), false) == Some(Paren) && OperatorFor(Char('('), true) == None
    ensures OperatorFor(Char('*'), false) == None && OperatorFor(Char('!'), true) == None
    ensures OperatorFor(Char(')'), true) == None && OperatorFor(Char(')'), false) == None
    ensures OperatorFor(Operator(OpPower), true) == None
  {
  }

  // ------------------------------------------------------------- stacks

  datatype Failure =
    | TokenError            // the tokenizer reported an error
    | NumberAfterValue
    | IdentifierAfterValue
    | UndefinedSymbol       // `get_symbol_value` failed
    | UnexpectedClose       // a `)` without a `(`
    | NotEnoughValues
    | ValuesLeft(count: nat)
    | AssertionFailure      // an `assert` of the source fails
    | UndefinedBehaviour    // C undefined behaviour in an operator

  /** A stack as a value: empty, or an element pushed onto a stack. */
  datatype Stack<T> = Empty | Push(below: Stack<T>, top: T)

  /** The number of elements on a stack (the `used` count of the
   * source's growable stacks). */
  function Depth<T>(s: Stack<T>): nat
  {
    match s
    case Empty => 0
    case Push(below, _) => Depth(below) + 1
  }

  /** The stack left after `n` pops. */
  function Under<T>(s: Stack<T>, n: nat): Stack<T>
    requires n <= Depth(s)
  {
    if n == 0 then s else Under(s.below, n - 1)
  }

  /** The value stack and the operator stack of `evaluate_expression`. */
  datatype Stacks = Stacks(values: Stack<i32>, ops: Stack<Fun>)

  /** `pop_operator`: the top operator is removed and applied to the top
   * value (unary) or the top two values (binary). */
  function Pop(s: Stacks): (r: Result<Stacks, Failure>)
    requires s.ops.Push?
    ensures r.Ok? ==> r.value.ops == s.ops.below
  {
    var op := s.ops.top;
    if Depth(s.values) < Arity(op) then Err(NotEnoughValues)
    else if Arity(op) == 2 then
      assert Depth(s.values.below) >= 1;
      match Apply(op, s.values.below.top, s.values.top)
      case None => Err(UndefinedBehaviour)
      case Some(v) => Ok(Stacks(Push(s.values.below.below, v), s.ops.below))
    else if Arity(op) == 1 then
      match Apply(op, 0, s.values.top)
      case None => Err(UndefinedBehaviour)
      case Some(v) => Ok(Stacks(Push(s.values.below, v), s.ops.below))
    else
      // `(`: the top value is read and then `assert(arity == 1)` fails.
      Err(AssertionFailure)
  }

  /** How far a reduction goes: down to a `(` (for `)`), down to an
   * operator binding less tightly than an incoming one, or to the bottom. */
  datatype Until = ToParen | ToWeaker(incoming: Fun) | ToEmpty

  /** The reduction stops at this top operator. Binary operators are left
   * associative (an equal priority is popped), unary ones right
   * associative (an equal priority stays). */
  predicate Stops(top: Fun, until: Until)
  {
    match until
    case ToParen => top == Paren
    case ToWeaker(k) =>
      top == Paren || (if Arity(top) == 2 then Priority(top) < Priority(k) else Priority(top) <= Priority(k))
    case ToEmpty => false
  }

  /** Pop until the operator stack is empty or its top stops the
   * reduction. */
  function Reduce(s: Stacks, until: Until): (r: Result<Stacks, Failure>)
    decreases s.ops
  {
    if s.ops.Empty? || Stops(s.ops.top, until) then Ok(s)
    else
      match Pop(s)
      case Err(e) => Err(e)
      case Ok(s') => Reduce(s', until)
  }

  /** What a successful pop leaves: one value fewer than the operator
   * took, the values below its operands kept and its result on top; a
   * pop fails for want of values exactly when there are fewer values
   * than the operator takes. */
  lemma PopShape(s: Stacks)
    requires s.ops.Push?
    ensures Pop(s).Ok? ==> Arity(s.ops.top) in {1, 2} && Arity(s.ops.top) <= Depth(s.values)
    ensures Pop(s).Ok? ==> Pop(s).value.values.Push? && Pop(s).value.values.below == Under(s.values, Arity(s.ops.top))
    ensures Pop(s) == Err(NotEnoughValues) <==> Depth(s.values) < Arity(s.ops.top)
  {
    var n := Depth(s.values);
    if n >= 1 {
      assert Under(s.values, 1) == s.values.below;
    }
    if n >= 2 {
      assert Depth(s.values.below) >= 1;
      assert Under(s.values, 2) == Under(s.values.below, 1) == s.values.below.below;
    }
  }

  /** `r` is `s` or a stack below it. */
  predicate Beneath<T(==)>(r: Stack<T>, s: Stack<T>)
    decreases s
  {
    r == s || (s.Push? && Beneath(r, s.below))
  }

  /** A successful reduction leaves part of the operator stack, and its
   * top, if any, is where the reduction had to stop. */
  lemma {:induction false} ReduceShape(s: Stacks, until: Until)
    ensures Reduce(s, until).Ok? ==> Beneath(Reduce(s, until).value.ops, s.ops)
    ensures Reduce(s, until).Ok? ==> Reduce(s, until).value.ops.Empty? || Stops(Reduce(s, until).value.ops.top, until)
    decreases s.ops
  {
    if s.ops.Push? && !Stops(s.ops.top, until) && Pop(s).Ok? {
      ReduceShape(Pop(s).value, until);
    }
  }

  /** `pop_operator` on the two stacks. */
  method PopOperator(s: Stacks) returns (r: Result<Stacks, Failure>)
    requires s.ops.Push?
    ensures r == Pop(s)
  {
    var op := s.ops.top;
    if Depth(s.values) < Arity(op) {
      return Err(NotEnoughValues);
    }
    if Arity(op) == 0 {
      return Err(AssertionFailure);
    }
    var v1: i32, rest := 0, s.values.below;
    if Arity(op) == 2 {
      assert Depth(s.values.below) >= 1;
      v1, rest := s.values.below.top, s.values.below.below;
    }
    var v := Apply(op, v1, s.values.top);
    if v.None? {
      return Err(UndefinedBehaviour);
    }
    return Ok(Stacks(Push(rest, v.value), s.ops.below));
  }

  /** The `while` loops that call `pop_operator`. */
  method PopWhile(s: Stacks, until: Until) returns (r: Result<Stacks, Failure>)
    ensures r == Reduce(s, until)
  {
    var cur := s;
    while cur.ops.Push? && !Stops(cur.ops.top, until)
      invariant Reduce(cur, until) == Reduce(s, until)
      decreases cur.ops
    {
      var popped := PopOperator(cur);
      if popped.Err? {
        return popped;
      }
      cur := popped.value;
    }
    return Ok(cur);
  }

  // --------------------------------------------------------------- scan

  /** Where the scan ended: the stacks when it stopped at a token that is
   * not part of an expression, or the failure; the position of the first
   * token not consumed; and the assembler state. */
  datatype Scanned = Scanned(status: Result<Stacks, Failure>, next: nat, st: AsmTables.AsmState)

  /** One pass through the main loop of `evaluate_expression`: the token
   * at `i` either stops the loop with its outcome, or leaves new stacks
   * (and, after a symbol lookup, a new assembler state) for the next. */
  datatype Step =
    | Continue(s: Stacks, precededByValue: bool, st: AsmTables.AsmState)
    | Stop(result: Scanned)

  /** The pass for the token at `i`, with `precededByValue` telling whether
   * the previous item was a value. `asWritten` selects the check made on
   * the stack top after a `)` reduction: the source's (a `)`) or the
   * intended one (a `(`). Tokens are consumed one at a time, and the end
   * of the stream always stops the loop. */
  function StepAt(toks: seq<Token>, i: nat, s: Stacks, precededByValue: bool, st: AsmTables.AsmState, asWritten: bool): (r: Step)
    ensures r.Continue? ==> i < |toks|
    ensures r.Stop? ==> r.result.next in {i, i + 1}
  {
    var t := At(toks, i);
    if t.ErrorToken? then Stop(Scanned(Err(TokenError), i, st))
    else if t.Number? then
      if precededByValue then Stop(Scanned(Err(NumberAfterValue), i, st))
      else Continue(Stacks(Push(s.values, t.value), s.ops), true, st)
    else if t.Identifier? then
      if precededByValue then Stop(Scanned(Err(IdentifierAfterValue), i, st))
      else
        var (v, st') := AsmTables.SymbolValueSpec(st, t.text);
        if v.None? then Stop(Scanned(Err(UndefinedSymbol), i + 1, st'))
        else Continue(Stacks(Push(s.values, v.value), s.ops), true, st')
    else if t == Char(')') then
      match Reduce(s, ToParen)
      case Err(e) => Stop(Scanned(Err(e), i + 1, st))
      case Ok(r) =>
        if r.ops.Empty? then Stop(Scanned(Err(UnexpectedClose), i + 1, st))
        else if TokenOf(r.ops.top) != Char(if asWritten then ')' else '(') then
          Stop(Scanned(Err(AssertionFailure), i + 1, st))
        else Continue(Stacks(r.values, r.ops.below), true, st)
    else
      match OperatorFor(t, precededByValue)
      case None => Stop(Scanned(Ok(s), i, st))
      case Some(k) =>
        match Reduce(s, ToWeaker(k))
        case Err(e) => Stop(Scanned(Err(e), i + 1, st))
        case Ok(r) => Continue(Stacks(r.values, Push(r.ops, k)), false, st)
  }

  /** The main loop of `evaluate_expression` from position `i`. */
  function Scan(toks: seq<Token>, i: nat, s: Stacks, precededByValue: bool, st: AsmTables.AsmState, asWritten: bool): Scanned
    decreases |toks| - i, 1
  {
    Iterate(toks, i, s, precededByValue, st, asWritten)
  }

  /** One pass of the loop body at position `i`, then the rest of the
   * loop. */
  function Iterate(toks: seq<Token>, i: nat, s: Stacks, precededByValue: bool, st: AsmTables.AsmState, asWritten: bool): Scanned
    decreases |toks| - i, 0
  {
    match StepAt(toks, i, s, precededByValue, st, asWritten)
    case Stop(r) => r
    case Continue(s', pv, st') => Scan(toks, i + 1, s', pv, st', asWritten)
  }

  /** The loop from `i` is the loop body at `i` followed by the loop from
   * `i + 1`. */
  lemma ScanUnfold(toks: seq<Token>, i: nat, s: Stacks, pv: bool, st: AsmTables.AsmState, asWritten: bool)
    ensures Scan(toks, i, s, pv, st, asWritten) ==
      match StepAt(toks, i, s, pv, st, asWritten)
      case Stop(r) => r
      case Continue(s', pv', st') => Scan(toks, i + 1, s', pv', st', asWritten)
  {
  }

  /** The outcome: the value, or why there is none; the position after the
   * tokens consumed; the assembler state. */
  datatype Evaluated = Evaluated(value: Result<i32, Failure>, next: nat, st: AsmTables.AsmState)

  /** After the scan every operator is popped, and exactly one value must
   * remain. */
  function Finish(s: Scanned): Evaluated
  {
    match s.status
    case Err(e) => Evaluated(Err(e), s.next, s.st)
    case Ok(stacks) =>
      match Reduce(stacks, ToEmpty)
      case Err(e) => Evaluated(Err(e), s.next, s.st)
      case Ok(r) =>
        if Depth(r.values) == 1 then Evaluated(Ok(r.values.top), s.next, s.st)
        else Evaluated(Err(ValuesLeft(Depth(r.values))), s.next, s.st)
  }

  /** `evaluate_expression` from position `i`. */
  function EvaluateSpec(toks: seq<Token>, i: nat, st: AsmTables.AsmState, asWritten: bool): Evaluated
  {
    Finish(Scan(toks, i, Stacks(Empty, Empty), false, st, asWritten))
  }

  /** A pass of the loop reads at most the token at `i`, and only a
   * symbol reference changes the assembler state, keeping its layout. */
  lemma StepFacts(toks: seq<Token>, i: nat, s: Stacks, pv: bool, st: AsmTables.AsmState, asWritten: bool)
    requires i <= |toks|
    ensures var r := StepAt(toks, i, s, pv, st, asWritten);
      var st' := if r.Continue? then r.st else r.result.st;
      AsmTables.SameLayout(st, st') && (AsmTables.WellFormed(st) ==> AsmTables.WellFormed(st')) &&
      (r.Stop? ==> i <= r.result.next <= |toks|)
  {
    var t := At(toks, i);
    if t.Identifier? {
      AsmTables.SymbolValueKeeps(st, t.text);
    }
  }

  /** The scan from `i` stops between `i` and the end of the stream, and
   * changes no more than the symbol table. */
  lemma {:induction false} ScanBounds(toks: seq<Token>, i: nat, s: Stacks, pv: bool, st: AsmTables.AsmState, asWritten: bool)
    requires i <= |toks|
    ensures var r := Scan(toks, i, s, pv, st, asWritten);
      i <= r.next <= |toks| && AsmTables.SameLayout(st, r.st) && (AsmTables.WellFormed(st) ==> AsmTables.WellFormed(r.st))
    decreases |toks| - i
  {
    ScanUnfold(toks, i, s, pv, st, asWritten);
    StepFacts(toks, i, s, pv, st, asWritten);
    var r := StepAt(toks, i, s, pv, st, asWritten);
    if r.Continue? {
      ScanBounds(toks, i + 1, r.s, r.precededByValue, r.st, asWritten);
    }
  }

  /** `evaluate_expression` from `i` stops between `i` and the end of the
   * stream, and changes no more than the symbol table. */
  lemma EvaluateBounds(toks: seq<Token>, i: nat, st: AsmTables.AsmState, asWritten: bool)
    requires i <= |toks|
    ensures var r := EvaluateSpec(toks, i, st, asWritten);
      i <= r.next <= |toks| && AsmTables.SameLayout(st, r.st) && (AsmTables.WellFormed(st) ==> AsmTables.WellFormed(r.st))
  {
    ScanBounds(toks, i, Stacks(Empty, Empty), false, st, asWritten);
  }

  method Evaluate(asm: AsmTables.Assembler, toks: seq<Token>, start: nat) returns (r: Result<i32, Failure>, next: nat)
    requires asm.Valid() && start <= |toks|
    modifies asm
    ensures asm.Valid()
    ensures Evaluated(r, next, asm.Snapshot()) == EvaluateSpec(toks, start, old(asm.Snapshot()), false)
  {
    var scanned;
    scanned, next := ScanTokens(asm, toks, start);
    if scanned.Err? {
      return Err(scanned.error), next;
    }
    var reduced := PopWhile(scanned.value, ToEmpty);
    if reduced.Err? {
      return Err(reduced.error), next;
    }
    if Depth(reduced.value.values) != 1 {
      return Err(ValuesLeft(Depth(reduced.value.values))), next;
    }
    return Ok(reduced.value.values.top), next;
  }

  /** The pass for a token that is not an identifier. */
  method ScanStep(toks: seq<Token>, i: nat, s: Stacks, precededByValue: bool, st: AsmTables.AsmState) returns (step: Step)
    requires !At(toks, i).Identifier?
    ensures step == StepAt(toks, i, s, precededByValue, st, false)
  {
    var t := At(toks, i);
    if t.ErrorToken? {
      return Stop(Scanned(Err(TokenError), i, st));
    } else if t.Number? {
      if precededByValue {
        return Stop(Scanned(Err(NumberAfterValue), i, st));
      }
      return Continue(Stacks(Push(s.values, t.value), s.ops), true, st);
    } else if t == Char(')') {
      var reduced := PopWhile(s, ToParen);
      if reduced.Err? {
        return Stop(Scanned(Err(reduced.error), i + 1, st));
      }
      var ops := reduced.value.ops;
      if ops.Empty? {
        return Stop(Scanned(Err(UnexpectedClose), i + 1, st));
      }
      if TokenOf(ops.top) != Char('(') {
        return Stop(Scanned(Err(AssertionFailure), i + 1, st));
      }
      return Continue(Stacks(reduced.value.values, ops.below), true, st);
    } else {
      var op := FindOperator(t, precededByValue);
      if op.None? {
        return Stop(Scanned(Ok(s), i, st));
      }
      var reduced := PopWhile(s, ToWeaker(op.value));
      if reduced.Err? {
        return Stop(Scanned(Err(reduced.error), i + 1, st));
      }
      return Continue(Stacks(reduced.value.values, Push(reduced.value.ops, op.value)), false, st);
    }
  }

  /** The pass for an identifier, which looks the symbol up. */
  method ScanIdentifier(asm: AsmTables.Assembler, toks: seq<Token>, i: nat, s: Stacks, precededByValue: bool) returns (step: Step)
    requires asm.Valid() && At(toks, i).Identifier?
    modifies asm
    ensures asm.Valid()
    ensures step == StepAt(toks, i, s, precededByValue, old(asm.Snapshot()), false)
    ensures asm.Snapshot() == (if step.Continue? then step.st else step.result.st)
  {
    if precededByValue {
      return Stop(Scanned(Err(IdentifierAfterValue), i, asm.Snapshot()));
    }
    var ok, value := asm.GetSymbolValue(At(toks, i).text);
    if !ok {
      return Stop(Scanned(Err(UndefinedSymbol), i + 1, asm.Snapshot()));
    }
    return Continue(Stacks(Push(s.values, value), s.ops), true, asm.Snapshot());
  }

  /** The main loop of `evaluate_expression`. */
  method ScanTokens(asm: AsmTables.Assembler, toks: seq<Token>, start: nat) returns (r: Result<Stacks, Failure>, next: nat)
    requires asm.Valid() && start <= |toks|
    modifies asm
    ensures asm.Valid()
    ensures Scanned(r, next, asm.Snapshot()) == Scan(toks, start, Stacks(Empty, Empty), false, old(asm.Snapshot()), false)
  {
    var s := Stacks(Empty, Empty);
    var precededByValue := false;
    var i := start;
    while true
      invariant asm.Valid() && i <= |toks|
      invariant Scan(toks, start, Stacks(Empty, Empty), false, old(asm.Snapshot()), false) ==
        Scan(toks, i, s, precededByValue, asm.Snapshot(), false)
      decreases |toks| - i
    {
      var step;
      ScanUnfold(toks, i, s, precededByValue, asm.Snapshot(), false);
      if At(toks, i).Identifier? {
        step := ScanIdentifier(asm, toks, i, s, precededByValue);
      } else {
        step := ScanStep(toks, i, s, precededByValue, asm.Snapshot());
      }
      if step.Stop? {
        return step.result.status, step.result.next;
      }
      s, precededByValue := step.s, step.precededByValue;
      i := i + 1;
    }
  }
}
