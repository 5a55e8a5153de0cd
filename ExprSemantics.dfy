/** What `evaluate_expression` computes, stated against expression trees:
 * a fully parenthesised tree evaluates to its value, binary operators
 * follow their priorities and associate to the left, unary operators bind
 * tighter and nest to the right, and the `)` check as written rejects
 * every parenthesis. */
module ExprSemantics {
  import opened Wrappers
  import opened CTokenizer
  import I32
  import AsmTables
  import opened CExpressions

  type i32 = I32.i32

  datatype Expr =
    | Num(v: i32)
    | Binary(f: Fun, l: Expr, r: Expr)
    | Unary(u: Fun, e: Expr)

  /** Binary nodes carry binary operators, unary nodes unary ones. */
  predicate WellFormed(e: Expr)
  {
    match e
    case Num(_) => true
    case Binary(f, l, r) => Arity(f) == 2 && WellFormed(l) && WellFormed(r)
    case Unary(u, e') => Arity(u) == 1 && WellFormed(e')
  }

  /** The tree written out with a parenthesis around every operator. */
  function Tokens(e: Expr): seq<Token>
  {
    match e
    case Num(v) => [Number(v)]
    case Binary(f, l, r) => [Char('(')] + Tokens(l) + [TokenOf(f)] + Tokens(r) + [Char(')')]
    case Unary(u, e') => [Char('('), TokenOf(u)] + Tokens(e') + [Char(')')]
  }

  /** The value of a tree, operands left to right; `None` when an operator
   * meets undefined behaviour. */
  function Eval(e: Expr): Option<i32>
  {
    match e
    case Num(v) => Some(v)
    case Binary(f, l, r) =>
      (match Eval(l)
       case None => None
       case Some(x) =>
         match Eval(r)
         case None => None
         case Some(y) => Apply(f, x, y))
    case Unary(u, e') =>
      match Eval(e')
      case None => None
      case Some(x) => Apply(u, 0, x)
  }

  /** The outcome `evaluate_expression` reports for a value. */
  function Lift(v: Option<i32>): Result<i32, Failure>
  {
    if v.Some? then Ok(v.value) else Err(UndefinedBehaviour)
  }

  // ---------------------------------------------------- reduction facts

  /** Nothing is popped before a `(` is pushed. */
  lemma ReduceBeforeParen(s: Stacks)
    ensures Reduce(s, ToWeaker(Paren)) == Ok(s)
  {
    if s.ops.Push? {
      PriorityBounds(s.ops.top);
    }
  }

  /** `(` has the highest priority, above every binary operator. */
  lemma PriorityBounds(f: Fun)
    ensures Priority(f) <= Priority(Paren)
    ensures Arity(f) == 2 ==> Priority(f) < Priority(Paren)
  {
  }

  /** A `)` after `( x op y` pops the operator and leaves its result. */
  lemma ReduceCloseBinary(s: Stacks, f: Fun, x: i32, y: i32)
    requires Arity(f) == 2
    ensures Apply(f, x, y).None? ==> Reduce(Stacks(Push(Push(s.values, x), y), Push(Push(s.ops, Paren), f)), ToParen) == Err(UndefinedBehaviour)
    ensures Apply(f, x, y).Some? ==>
      Reduce(Stacks(Push(Push(s.values, x), y), Push(Push(s.ops, Paren), f)), ToParen) == Ok(Stacks(Push(s.values, Apply(f, x, y).value), Push(s.ops, Paren)))
  {
    assert Depth(Push(Push(s.values, x), y)) == Depth(s.values) + 2;
  }

  /** A `)` after `( u x` pops the operator and leaves its result. */
  lemma ReduceCloseUnary(s: Stacks, u: Fun, x: i32)
    requires Arity(u) == 1
    ensures Apply(u, 0, x).None? ==> Reduce(Stacks(Push(s.values, x), Push(Push(s.ops, Paren), u)), ToParen) == Err(UndefinedBehaviour)
    ensures Apply(u, 0, x).Some? ==>
      Reduce(Stacks(Push(s.values, x), Push(Push(s.ops, Paren), u)), ToParen) == Ok(Stacks(Push(s.values, Apply(u, 0, x).value), Push(s.ops, Paren)))
  {
  }

  /** The number of tokens of a tree. */
  function Width(e: Expr): nat
  {
    match e
    case Num(_) => 1
    case Binary(_, l, r) => Width(l) + Width(r) + 3
    case Unary(_, e') => Width(e') + 3
  }

  /** The tokens of a tree lie at position `i` of a stream, stated token by
   * token along the tree. */
  predicate WrittenAt(toks: seq<Token>, i: nat, e: Expr)
    decreases e
  {
    match e
    case Num(v) => At(toks, i) == Number(v)
    case Binary(f, l, r) =>
      At(toks, i) == Char('(') && WrittenAt(toks, i + 1, l) && At(toks, i + 1 + Width(l)) == TokenOf(f) &&
      WrittenAt(toks, i + 2 + Width(l), r) && At(toks, i + 2 + Width(l) + Width(r)) == Char(')')
    case Unary(u, e') =>
      At(toks, i) == Char('(') && At(toks, i + 1) == TokenOf(u) && WrittenAt(toks, i + 2, e') &&
      At(toks, i + 2 + Width(e')) == Char(')')
  }

  /** A tree has `Width` tokens. */
  lemma {:induction false} TokensWidth(e: Expr)
    ensures |Tokens(e)| == Width(e)
  {
    match e
    case Num(_) =>
    case Binary(_, l, r) =>
      TokensWidth(l);
      TokensWidth(r);
    case Unary(_, e') =>
      TokensWidth(e');
  }

  /** The stream holds the tokens `a` from position `i` on. */
  predicate Held(toks: seq<Token>, i: nat, a: seq<Token>)
  {
    i + |a| <= |toks| && forall k :: 0 <= k < |a| ==> toks[i + k] == a[k]
  }

  /** A stream holding a tree's tokens from position `i` has the tree
   * written at `i`. */
  lemma {:induction false} TokensWritten(toks: seq<Token>, i: nat, e: Expr)
    requires Held(toks, i, Tokens(e))
    ensures WrittenAt(toks, i, e)
    decreases e, 1
  {
    match e
    case Num(v) =>
      HeldFirst(toks, i, Tokens(e));
    case Binary(f, l, r) =>
      TokensWrittenBinary(toks, i, e);
    case Unary(u, e') =>
      TokensWrittenUnary(toks, i, e);
  }

  /** Tokens `a + b` held from position `i`: `a` is held from `i` and `b`
   * right after it. */
  lemma Within(toks: seq<Token>, i: nat, a: seq<Token>, b: seq<Token>)
    requires Held(toks, i, a + b)
    ensures Held(toks, i, a) && Held(toks, i + |a|, b)
  {
    forall k | 0 <= k < |a|
      ensures toks[i + k] == a[k]
    {
      assert (a + b)[k] == a[k];
    }
    forall k | 0 <= k < |b|
      ensures toks[i + |a| + k] == b[k]
    {
      assert toks[i + (|a| + k)] == (a + b)[|a| + k];
    }
  }

  /** The first of the held tokens is the one at `i`. */
  lemma HeldFirst(toks: seq<Token>, i: nat, a: seq<Token>)
    requires Held(toks, i, a) && |a| > 0
    ensures At(toks, i) == a[0]
  {
    assert toks[i + 0] == a[0];
  }

  /** `TokensWritten` for `( l f r )`. */
  lemma {:induction false} TokensWrittenBinary(toks: seq<Token>, i: nat, e: Expr)
    requires e.Binary?
    requires Held(toks, i, Tokens(e))
    ensures WrittenAt(toks, i, e)
    decreases e, 0
  {
    BinaryPieces(toks, i, e);
    TokensWritten(toks, i + 1, e.l);
    TokensWritten(toks, i + 2 + Width(e.l), e.r);
  }

  /** The tokens of `( l f r )` held at `i`, piece by piece. */
  lemma BinaryPieces(toks: seq<Token>, i: nat, e: Expr)
    requires e.Binary?
    requires Held(toks, i, Tokens(e))
    ensures At(toks, i) == Char('(') && At(toks, i + 1 + Width(e.l)) == TokenOf(e.f)
    ensures At(toks, i + 2 + Width(e.l) + Width(e.r)) == Char(')')
    ensures Held(toks, i + 1, Tokens(e.l)) && Held(toks, i + 2 + Width(e.l), Tokens(e.r))
  {
    TokensWidth(e.l);
    TokensWidth(e.r);
    assert Tokens(e) == [Char('(')] + Tokens(e.l) + [TokenOf(e.f)] + Tokens(e.r) + [Char(')')];
    FivePieces(toks, i, Tokens(e), Tokens(e.l), Tokens(e.r), TokenOf(e.f), Width(e.l), Width(e.r));
  }

  lemma FivePieces(toks: seq<Token>, i: nat, h: seq<Token>, tl: seq<Token>, tr: seq<Token>, f: Token, wl: nat, wr: nat)
    requires Held(toks, i, h) && h == [Char('(')] + tl + [f] + tr + [Char(')')] && wl == |tl| && wr == |tr|
    ensures At(toks, i) == Char('(') && At(toks, i + 1 + wl) == f && At(toks, i + 2 + wl + wr) == Char(')')
    ensures Held(toks, i + 1, tl) && Held(toks, i + 2 + wl, tr)
  {
    assert h[0] == Char('(') && h[1 + wl] == f && h[2 + wl + wr] == Char(')');
    assert h[1..1 + wl] == tl && h[2 + wl..2 + wl + wr] == tr;
    HeldAt(toks, i, h, 0);
    HeldAt(toks, i, h, 1 + wl);
    HeldAt(toks, i, h, 2 + wl + wr);
    HeldSlice(toks, i, h, 1, 1 + wl);
    HeldSlice(toks, i, h, 2 + wl, 2 + wl + wr);
  }

  lemma HeldAt(toks: seq<Token>, i: nat, h: seq<Token>, k: nat)
    requires Held(toks, i, h) && k < |h|
    ensures At(toks, i + k) == h[k]
  {
  }

  lemma HeldSlice(toks: seq<Token>, i: nat, h: seq<Token>, from: nat, to: nat)
    requires Held(toks, i, h) && from <= to <= |h|
    ensures Held(toks, i + from, h[from..to])
  {
    forall k | 0 <= k < to - from
      ensures toks[i + from + k] == h[from..to][k]
    {
      assert toks[i + (from + k)] == h[from + k];
    }
  }

  /** `TokensWritten` for `( u e )`. */
  lemma {:induction false} TokensWrittenUnary(toks: seq<Token>, i: nat, e: Expr)
    requires e.Unary?
    requires Held(toks, i, Tokens(e))
    ensures WrittenAt(toks, i, e)
    decreases e, 0
  {
    var open, te, close := [Char('('), TokenOf(e.u)], Tokens(e.e), [Char(')')];
    assert Tokens(e) == open + te + close;
    TokensWidth(e.e);
    Within(toks, i, open + te, close);
    Within(toks, i, open, te);
    TokensWritten(toks, i + 2, e.e);
    HeldFirst(toks, i, open);
    assert toks[i + 1] == open[1];
    HeldFirst(toks, i + 2 + Width(e.e), close);
  }

  // ------------------------------------------------------- scan steps

  /** The scan from `i` with stacks `s` goes on as the scan from `j` with
   * stacks `t`. */
  predicate Leads(toks: seq<Token>, i: nat, s: Stacks, pv: bool, j: nat, t: Stacks, pv': bool, st: AsmTables.AsmState)
  {
    Scan(toks, i, s, pv, st, false) == Scan(toks, j, t, pv', st, false)
  }

  /** The scan from `i` with stacks `s` stops at undefined behaviour. */
  predicate Fails(toks: seq<Token>, i: nat, s: Stacks, pv: bool, st: AsmTables.AsmState)
  {
    Scan(toks, i, s, pv, st, false).status == Err(UndefinedBehaviour)
  }

  /** A number where a value is expected is pushed. */
  lemma ScanValue(toks: seq<Token>, i: nat, j: nat, s: Stacks, t: Stacks, st: AsmTables.AsmState, v: i32)
    requires At(toks, i) == Number(v) && j == i + 1 && t == Stacks(Push(s.values, v), s.ops)
    ensures Leads(toks, i, s, false, j, t, true, st)
  {
    ScanUnfold(toks, i, s, false, st, false);
  }

  /** No entry of the operator table has the token `)`. */
  lemma NoCloseOperator(f: Fun)
    ensures TokenOf(f) != Char(')')
  {
  }

  /** An operator token reduces the stacks down to a weaker operator and
   * is pushed. */
  lemma ScanOperator(toks: seq<Token>, i: nat, j: nat, s: Stacks, pv: bool, st: AsmTables.AsmState, k: Fun, r: Stacks, t: Stacks)
    requires OperatorFor(At(toks, i), pv) == Some(k) && Reduce(s, ToWeaker(k)) == Ok(r)
    requires j == i + 1 && t == Stacks(r.values, Push(r.ops, k))
    ensures Leads(toks, i, s, pv, j, t, false, st)
  {
    NoCloseOperator(k);
    ScanUnfold(toks, i, s, pv, st, false);
  }

  /** An operator whose reduction fails ends the scan after it. */
  lemma ScanOperatorFails(toks: seq<Token>, i: nat, s: Stacks, pv: bool, st: AsmTables.AsmState, k: Fun, e: Failure)
    requires OperatorFor(At(toks, i), pv) == Some(k) && Reduce(s, ToWeaker(k)) == Err(e)
    ensures Scan(toks, i, s, pv, st, false) == Scanned(Err(e), i + 1, st)
  {
    NoCloseOperator(k);
    ScanUnfold(toks, i, s, pv, st, false);
  }

  /** A `)` reduces the stacks down to the `(` and removes it. */
  lemma ScanClose(toks: seq<Token>, i: nat, j: nat, s: Stacks, st: AsmTables.AsmState, r: Stacks, t: Stacks)
    requires At(toks, i) == Char(')') && Reduce(s, ToParen) == Ok(r) && r.ops.Push? && r.ops.top == Paren
    requires j == i + 1 && t == Stacks(r.values, r.ops.below)
    ensures Leads(toks, i, s, true, j, t, true, st)
  {
    ScanUnfold(toks, i, s, true, st, false);
  }

  /** The scan stops at the end of the stream with what is on the stacks. */
  lemma ScanEnd(toks: seq<Token>, i: nat, s: Stacks, pv: bool, st: AsmTables.AsmState, asWritten: bool)
    requires i == |toks|
    ensures Scan(toks, i, s, pv, st, asWritten) == Scanned(Ok(s), i, st)
  {
    ScanUnfold(toks, i, s, pv, st, asWritten);
  }

  /** A `(` where a value is expected is pushed. */
  lemma ScanOpen(toks: seq<Token>, i: nat, j: nat, s: Stacks, st: AsmTables.AsmState)
    requires At(toks, i) == Char('(') && j == i + 1
    ensures Leads(toks, i, s, false, j, Stacks(s.values, Push(s.ops, Paren)), false, st)
  {
    ReduceBeforeParen(s);
    OperatorForEntry(Paren);
    ScanOperator(toks, i, j, s, false, st, Paren, s, Stacks(s.values, Push(s.ops, Paren)));
  }

  /** A binary operator right after `( x` is pushed above the `(`. */
  lemma ScanBinaryOperator(toks: seq<Token>, i: nat, j: nat, s: Stacks, st: AsmTables.AsmState, f: Fun, x: i32)
    requires At(toks, i) == TokenOf(f) && Arity(f) == 2 && j == i + 1
    ensures Leads(toks, i, Stacks(Push(s.values, x), Push(s.ops, Paren)), true, j, Stacks(Push(s.values, x), Push(Push(s.ops, Paren), f)), false, st)
  {
    var s2 := Stacks(Push(s.values, x), Push(s.ops, Paren));
    OperatorForEntry(f);
    PriorityBounds(f);
    ScanOperator(toks, i, j, s2, true, st, f, s2, Stacks(Push(s.values, x), Push(Push(s.ops, Paren), f)));
  }

  /** `( u`: the `(` and a unary operator are pushed. */
  lemma ScanUnaryOpen(toks: seq<Token>, i: nat, j: nat, s: Stacks, st: AsmTables.AsmState, u: Fun)
    requires At(toks, i) == Char('(') && At(toks, i + 1) == TokenOf(u) && Arity(u) == 1 && j == i + 2
    ensures Leads(toks, i, s, false, j, Stacks(s.values, Push(Push(s.ops, Paren), u)), false, st)
  {
    var s1 := Stacks(s.values, Push(s.ops, Paren));
    ScanOpen(toks, i, i + 1, s, st);
    OperatorForEntry(u);
    PriorityBounds(u);
    ScanOperator(toks, i + 1, j, s1, false, st, u, s1, Stacks(s.values, Push(Push(s.ops, Paren), u)));
  }

  /** A `)` after `( x f y`. */
  lemma ScanBinaryClose(toks: seq<Token>, j: nat, n: nat, s: Stacks, st: AsmTables.AsmState, f: Fun, x: i32, y: i32)
    requires At(toks, j) == Char(')') && Arity(f) == 2 && n == j + 1
    ensures Apply(f, x, y).Some? ==>
      Leads(toks, j, Stacks(Push(Push(s.values, x), y), Push(Push(s.ops, Paren), f)), true, n, Stacks(Push(s.values, Apply(f, x, y).value), s.ops), true, st)
    ensures Apply(f, x, y).None? ==> Fails(toks, j, Stacks(Push(Push(s.values, x), y), Push(Push(s.ops, Paren), f)), true, st)
  {
    ReduceCloseBinary(s, f, x, y);
    if Apply(f, x, y).Some? {
      var s4 := Stacks(Push(s.values, Apply(f, x, y).value), Push(s.ops, Paren));
      ScanClose(toks, j, n, Stacks(Push(Push(s.values, x), y), Push(Push(s.ops, Paren), f)), st, s4, Stacks(Push(s.values, Apply(f, x, y).value), s.ops));
    } else {
      ScanUnfold(toks, j, Stacks(Push(Push(s.values, x), y), Push(Push(s.ops, Paren), f)), true, st, false);
    }
  }

  /** A `)` after `( u x`. */
  lemma ScanUnaryClose(toks: seq<Token>, j: nat, n: nat, s: Stacks, st: AsmTables.AsmState, u: Fun, x: i32)
    requires At(toks, j) == Char(')') && Arity(u) == 1 && n == j + 1
    ensures Apply(u, 0, x).Some? ==>
      Leads(toks, j, Stacks(Push(s.values, x), Push(Push(s.ops, Paren), u)), true, n, Stacks(Push(s.values, Apply(u, 0, x).value), s.ops), true, st)
    ensures Apply(u, 0, x).None? ==> Fails(toks, j, Stacks(Push(s.values, x), Push(Push(s.ops, Paren), u)), true, st)
  {
    ReduceCloseUnary(s, u, x);
    if Apply(u, 0, x).Some? {
      var s3 := Stacks(Push(s.values, Apply(u, 0, x).value), Push(s.ops, Paren));
      ScanClose(toks, j, n, Stacks(Push(s.values, x), Push(Push(s.ops, Paren), u)), st, s3, Stacks(Push(s.values, Apply(u, 0, x).value), s.ops));
    } else {
      ScanUnfold(toks, j, Stacks(Push(s.values, x), Push(Push(s.ops, Paren), u)), true, st, false);
    }
  }

  // --------------------------------------------------------- the scan

  /** Scanning the tree `e` written at `i` pushes its value onto the
   * stacks `s` and moves past it, or stops at undefined behaviour. */
  predicate Pushes(toks: seq<Token>, i: nat, s: Stacks, e: Expr, st: AsmTables.AsmState)
  {
    (Eval(e).Some? ==> Leads(toks, i, s, false, i + Width(e), Stacks(Push(s.values, Eval(e).value), s.ops), true, st)) &&
    (Eval(e).None? ==> Fails(toks, i, s, false, st))
  }

  /** The same for `( l f r )` from its operator on, with the value `x` of
   * `l` already pushed above the `(`. */
  predicate PushesRight(toks: seq<Token>, i: nat, s: Stacks, e: Expr, x: i32, st: AsmTables.AsmState)
    requires e.Binary?
  {
    (Eval(e).Some? ==>
      Leads(toks, i + 1 + Width(e.l), Stacks(Push(s.values, x), Push(s.ops, Paren)), true,
            i + Width(e), Stacks(Push(s.values, Eval(e).value), s.ops), true, st)) &&
    (Eval(e).None? ==> Fails(toks, i + 1 + Width(e.l), Stacks(Push(s.values, x), Push(s.ops, Paren)), true, st))
  }

  /** Scanning a parenthesised tree, whatever is on the stacks below it,
   * pushes exactly its value, or stops at the undefined behaviour. */
  lemma {:induction false} ScanExpr(e: Expr, toks: seq<Token>, i: nat, s: Stacks, st: AsmTables.AsmState)
    requires WellFormed(e) && WrittenAt(toks, i, e)
    ensures Pushes(toks, i, s, e, st)
    decreases e, 2
  {
    match e
    case Num(v) =>
      ScanValue(toks, i, i + Width(e), s, Stacks(Push(s.values, Eval(e).value), s.ops), st, v);
    case Binary(f, l, r) =>
      ScanBinary(e, toks, i, s, st);
    case Unary(u, e') =>
      ScanUnary(e, toks, i, s, st);
  }

  /** `( l f r )`: the `(` and the left operand. */
  lemma {:induction false} ScanBinary(e: Expr, toks: seq<Token>, i: nat, s: Stacks, st: AsmTables.AsmState)
    requires e.Binary? && WellFormed(e) && WrittenAt(toks, i, e)
    ensures Pushes(toks, i, s, e, st)
    decreases e, 1
  {
    var s1 := Stacks(s.values, Push(s.ops, Paren));
    ScanOpen(toks, i, i + 1, s, st);
    ScanExpr(e.l, toks, i + 1, s1, st);
    if Eval(e.l).Some? {
      ScanBinaryRight(e, toks, i, s, st, Eval(e.l).value);
    }
    ComposeBinary(toks, i, s, e, st);
  }

  /** The three parts of `( l f r )` put together. */
  lemma ComposeBinary(toks: seq<Token>, i: nat, s: Stacks, e: Expr, st: AsmTables.AsmState)
    requires e.Binary?
    requires Leads(toks, i, s, false, i + 1, Stacks(s.values, Push(s.ops, Paren)), false, st)
    requires Pushes(toks, i + 1, Stacks(s.values, Push(s.ops, Paren)), e.l, st)
    requires Eval(e.l).Some? ==> PushesRight(toks, i, s, e, Eval(e.l).value, st)
    ensures Pushes(toks, i, s, e, st)
  {
    EvalBinary(e);
    var s1 := Stacks(s.values, Push(s.ops, Paren));
    if Eval(e.l).Some? {
      var x := Eval(e.l).value;
      var s2 := Stacks(Push(s.values, x), Push(s.ops, Paren));
      assert Stacks(Push(s1.values, x), s1.ops) == s2;
      ComposeBinaryRight(toks, i, s, e, st, s1, x, i + 1 + Width(e.l), s2);
    } else {
      FailsTrans(toks, i, s, false, i + 1, s1, false, st);
    }
  }

  lemma ComposeBinaryRight(toks: seq<Token>, i: nat, s: Stacks, e: Expr, st: AsmTables.AsmState, s1: Stacks, x: i32, j: nat, s2: Stacks)
    requires e.Binary? && Eval(e.l) == Some(x) && j == i + 1 + Width(e.l)
    requires s2 == Stacks(Push(s.values, x), Push(s.ops, Paren))
    requires Leads(toks, i, s, false, i + 1, s1, false, st) && Leads(toks, i + 1, s1, false, j, s2, true, st)
    requires PushesRight(toks, i, s, e, x, st)
    ensures Pushes(toks, i, s, e, st)
  {
    LeadsTrans(toks, i, s, false, i + 1, s1, false, j, s2, true, st);
    LeadsThen(toks, i, s, st, i + 1 + Width(e.l), Stacks(Push(s.values, x), Push(s.ops, Paren)), Eval(e), i + Width(e));
  }

  /** A scan that reaches `j` with stacks `s2` and from there pushes the
   * optional value `r` at `n`, or fails, does the same from the start. */
  lemma LeadsThen(toks: seq<Token>, i: nat, s: Stacks, st: AsmTables.AsmState, j: nat, s2: Stacks, r: Option<i32>, n: nat)
    requires Leads(toks, i, s, false, j, s2, true, st)
    requires r.Some? ==> Leads(toks, j, s2, true, n, Stacks(Push(s.values, r.value), s.ops), true, st)
    requires r.None? ==> Fails(toks, j, s2, true, st)
    ensures r.Some? ==> Leads(toks, i, s, false, n, Stacks(Push(s.values, r.value), s.ops), true, st)
    ensures r.None? ==> Fails(toks, i, s, false, st)
  {
    if r.Some? {
      LeadsTrans(toks, i, s, false, j, s2, true, n, Stacks(Push(s.values, r.value), s.ops), true, st);
    } else {
      FailsTrans(toks, i, s, false, j, s2, true, st);
    }
  }

  lemma LeadsTrans(toks: seq<Token>, i: nat, s: Stacks, pv: bool, j: nat, t: Stacks, pv': bool,
                   k: nat, u: Stacks, pv'': bool, st: AsmTables.AsmState)
    requires Leads(toks, i, s, pv, j, t, pv', st) && Leads(toks, j, t, pv', k, u, pv'', st)
    ensures Leads(toks, i, s, pv, k, u, pv'', st)
  {
  }

  lemma FailsTrans(toks: seq<Token>, i: nat, s: Stacks, pv: bool, j: nat, t: Stacks, pv': bool, st: AsmTables.AsmState)
    requires Leads(toks, i, s, pv, j, t, pv', st) && Fails(toks, j, t, pv', st)
    ensures Fails(toks, i, s, pv, st)
  {
  }

  /** The value of a binary node from its operands' values. */
  lemma EvalBinary(e: Expr)
    requires e.Binary?
    ensures Eval(e.l).None? ==> Eval(e).None?
    ensures Eval(e.l).Some? && Eval(e.r).None? ==> Eval(e).None?
    ensures Eval(e.l).Some? && Eval(e.r).Some? ==> Eval(e) == Apply(e.f, Eval(e.l).value, Eval(e.r).value)
  {
  }

  /** The value of a unary node from its operand's value. */
  lemma EvalUnary(e: Expr)
    requires e.Unary?
    ensures Eval(e.e).None? ==> Eval(e).None?
    ensures Eval(e.e).Some? ==> Eval(e) == Apply(e.u, 0, Eval(e.e).value)
  {
  }

  /** `( l f r )` once `l` is on the stack: the operator, the right operand
   * and the `)`. */
  lemma {:induction false} ScanBinaryRight(e: Expr, toks: seq<Token>, i: nat, s: Stacks, st: AsmTables.AsmState, x: i32)
    requires e.Binary? && WellFormed(e) && WrittenAt(toks, i, e) && Eval(e.l) == Some(x)
    ensures PushesRight(toks, i, s, e, x, st)
    decreases e, 0
  {
    var k := i + 2 + Width(e.l);
    var s3 := Stacks(Push(s.values, x), Push(Push(s.ops, Paren), e.f));
    ScanExpr(e.r, toks, k, s3, st);
    RightAfterOperand(toks, i, s, e, st, x, k, s3);
  }

  /** The operator and the `)` around a right operand already scanned. */
  lemma RightAfterOperand(toks: seq<Token>, i: nat, s: Stacks, e: Expr, st: AsmTables.AsmState, x: i32, k: nat, s3: Stacks)
    requires e.Binary? && WellFormed(e) && WrittenAt(toks, i, e) && Eval(e.l) == Some(x)
    requires k == i + 2 + Width(e.l) && s3 == Stacks(Push(s.values, x), Push(Push(s.ops, Paren), e.f))
    requires Pushes(toks, k, s3, e.r, st)
    ensures PushesRight(toks, i, s, e, x, st)
  {
    var j := i + 1 + Width(e.l);
    var s2 := Stacks(Push(s.values, x), Push(s.ops, Paren));
    ScanBinaryOperator(toks, j, k, s, st, e.f, x);
    if Eval(e.r).Some? {
      ScanBinaryClose(toks, k + Width(e.r), i + Width(e), s, st, e.f, x, Eval(e.r).value);
    }
    ComposeRight(toks, i, s, e, st, x, j, s2, k, s3);
  }

  /** The operator, the right operand and the `)` put together. */
  lemma ComposeRight(toks: seq<Token>, i: nat, s: Stacks, e: Expr, st: AsmTables.AsmState, x: i32, j: nat, s2: Stacks, k: nat, s3: Stacks)
    requires e.Binary? && Eval(e.l) == Some(x) && j == i + 1 + Width(e.l) && k == j + 1
    requires s2 == Stacks(Push(s.values, x), Push(s.ops, Paren))
    requires s3 == Stacks(Push(s.values, x), Push(Push(s.ops, Paren), e.f))
    requires Leads(toks, j, s2, true, k, s3, false, st)
    requires Pushes(toks, k, s3, e.r, st)
    requires Eval(e.r).Some? ==> ClosesBinary(toks, k + Width(e.r), i + Width(e), s, st, e.f, x, Eval(e.r).value)
    ensures PushesRight(toks, i, s, e, x, st)
  {
    EvalBinary(e);
    if Eval(e.r).Some? {
      var y := Eval(e.r).value;
      var s4 := Stacks(Push(Push(s.values, x), y), Push(Push(s.ops, Paren), e.f));
      assert Stacks(Push(s3.values, y), s3.ops) == s4;
      ComposeRightClose(toks, i, s, e, st, x, j, s2, k, s3, y, k + Width(e.r), s4);
    } else {
      FailsTrans(toks, j, s2, true, k, s3, false, st);
    }
  }

  lemma ComposeRightClose(toks: seq<Token>, i: nat, s: Stacks, e: Expr, st: AsmTables.AsmState, x: i32, j: nat, s2: Stacks, k: nat, s3: Stacks,
                          y: i32, m: nat, s4: Stacks)
    requires e.Binary? && Eval(e) == Apply(e.f, x, y) && j == i + 1 + Width(e.l)
    requires s2 == Stacks(Push(s.values, x), Push(s.ops, Paren))
    requires s4 == Stacks(Push(Push(s.values, x), y), Push(Push(s.ops, Paren), e.f))
    requires Leads(toks, j, s2, true, k, s3, false, st) && Leads(toks, k, s3, false, m, s4, true, st)
    requires ClosesBinary(toks, m, i + Width(e), s, st, e.f, x, y)
    ensures PushesRight(toks, i, s, e, x, st)
  {
    LeadsTrans(toks, j, s2, true, k, s3, false, m, s4, true, st);
    if Eval(e).Some? {
      LeadsTrans(toks, j, s2, true, m, s4, true, i + Width(e), Stacks(Push(s.values, Eval(e).value), s.ops), true, st);
    } else {
      FailsTrans(toks, j, s2, true, m, s4, true, st);
    }
  }

  /** The scan from `j` on, at the `)` after `( x f y`. */
  predicate ClosesBinary(toks: seq<Token>, j: nat, n: nat, s: Stacks, st: AsmTables.AsmState, f: Fun, x: i32, y: i32)
  {
    (Apply(f, x, y).Some? ==>
      Leads(toks, j, Stacks(Push(Push(s.values, x), y), Push(Push(s.ops, Paren), f)), true, n, Stacks(Push(s.values, Apply(f, x, y).value), s.ops), true, st)) &&
    (Apply(f, x, y).None? ==> Fails(toks, j, Stacks(Push(Push(s.values, x), y), Push(Push(s.ops, Paren), f)), true, st))
  }

  /** `( u e )`. */
  lemma {:induction false} ScanUnary(e: Expr, toks: seq<Token>, i: nat, s: Stacks, st: AsmTables.AsmState)
    requires e.Unary? && WellFormed(e) && WrittenAt(toks, i, e)
    ensures Pushes(toks, i, s, e, st)
    decreases e, 1
  {
    ScanUnaryOpen(toks, i, i + 2, s, st, e.u);
    ScanExpr(e.e, toks, i + 2, Stacks(s.values, Push(Push(s.ops, Paren), e.u)), st);
    if Eval(e.e).Some? {
      ScanUnaryClose(toks, i + 2 + Width(e.e), i + Width(e), s, st, e.u, Eval(e.e).value);
    }
    ComposeUnary(toks, i, s, e, st);
  }

  /** The scan from `j` on, at the `)` after `( u x`. */
  predicate ClosesUnary(toks: seq<Token>, j: nat, n: nat, s: Stacks, st: AsmTables.AsmState, u: Fun, x: i32)
  {
    (Apply(u, 0, x).Some? ==>
      Leads(toks, j, Stacks(Push(s.values, x), Push(Push(s.ops, Paren), u)), true, n, Stacks(Push(s.values, Apply(u, 0, x).value), s.ops), true, st)) &&
    (Apply(u, 0, x).None? ==> Fails(toks, j, Stacks(Push(s.values, x), Push(Push(s.ops, Paren), u)), true, st))
  }

  /** The three parts of `( u e )` put together. */
  lemma ComposeUnary(toks: seq<Token>, i: nat, s: Stacks, e: Expr, st: AsmTables.AsmState)
    requires e.Unary?
    requires Leads(toks, i, s, false, i + 2, Stacks(s.values, Push(Push(s.ops, Paren), e.u)), false, st)
    requires Pushes(toks, i + 2, Stacks(s.values, Push(Push(s.ops, Paren), e.u)), e.e, st)
    requires Eval(e.e).Some? ==> ClosesUnary(toks, i + 2 + Width(e.e), i + Width(e), s, st, e.u, Eval(e.e).value)
    ensures Pushes(toks, i, s, e, st)
  {
    EvalUnary(e);
    var s1 := Stacks(s.values, Push(Push(s.ops, Paren), e.u));
    if Eval(e.e).Some? {
      var x := Eval(e.e).value;
      var s2 := Stacks(Push(s.values, x), Push(Push(s.ops, Paren), e.u));
      assert Stacks(Push(s1.values, x), s1.ops) == s2;
      ComposeUnaryClose(toks, i, s, e, st, s1, x, i + 2 + Width(e.e), s2);
    } else {
      FailsTrans(toks, i, s, false, i + 2, s1, false, st);
    }
  }

  lemma ComposeUnaryClose(toks: seq<Token>, i: nat, s: Stacks, e: Expr, st: AsmTables.AsmState, s1: Stacks, x: i32, j: nat, s2: Stacks)
    requires e.Unary? && Eval(e.e) == Some(x) && Eval(e) == Apply(e.u, 0, x) && j == i + 2 + Width(e.e)
    requires s2 == Stacks(Push(s.values, x), Push(Push(s.ops, Paren), e.u))
    requires Leads(toks, i, s, false, i + 2, s1, false, st) && Leads(toks, i + 2, s1, false, j, s2, true, st)
    requires ClosesUnary(toks, j, i + Width(e), s, st, e.u, x)
    ensures Pushes(toks, i, s, e, st)
  {
    LeadsTrans(toks, i, s, false, i + 2, s1, false, j, s2, true, st);
    if Eval(e).Some? {
      LeadsTrans(toks, i, s, false, j, s2, true, i + Width(e), Stacks(Push(s.values, Eval(e).value), s.ops), true, st);
    } else {
      FailsTrans(toks, i, s, false, j, s2, true, st);
    }
  }

  /** The outcome once the whole stream is scanned with `s` left over. */
  lemma FinishEnd(toks: seq<Token>, n: nat, s: Stacks, st: AsmTables.AsmState)
    requires n == |toks|
    ensures Finish(Scan(toks, n, s, true, st, false)) == Finish(Scanned(Ok(s), n, st))
  {
    ScanEnd(toks, n, s, true, st, false);
  }

  /** A number followed by a separator or the end of the line evaluates
   * to itself and stops before the separator. */
  lemma EvaluateNumber(toks: seq<Token>, i: nat, st: AsmTables.AsmState, v: i32)
    requires At(toks, i) == Number(v)
    requires At(toks, i + 1) in {Char(','), EolToken, EofToken}
    ensures EvaluateSpec(toks, i, st, false) == Evaluated(Ok(v), i + 1, st)
  {
    var one := Stacks(Push(Empty, v), Empty);
    ScanValue(toks, i, i + 1, Stacks(Empty, Empty), one, st, v);
    ScanUnfold(toks, i + 1, one, true, st, false);
    assert OperatorFor(At(toks, i + 1), true) == None;
    assert Depth(one.values) == 1;
  }

  /** With the `)` check as intended, a fully parenthesised expression
   * evaluates to the value of its tree, consumes all its tokens, and
   * leaves the symbol tables alone. */
  lemma EvaluateTree(e: Expr, st: AsmTables.AsmState)
    requires WellFormed(e)
    ensures Eval(e).Some? ==> EvaluateSpec(Tokens(e), 0, st, false) == Evaluated(Ok(Eval(e).value), |Tokens(e)|, st)
    ensures EvaluateSpec(Tokens(e), 0, st, false).value == Lift(Eval(e))
  {
    var toks := Tokens(e);
    TokensWidth(e);
    TokensWritten(toks, 0, e);
    ScanExpr(e, toks, 0, Stacks(Empty, Empty), st);
    if Eval(e).Some? {
      assert Depth(Push(Empty, Eval(e).value)) == 1;
      FinishEnd(toks, 0 + Width(e), Stacks(Push(Empty, Eval(e).value), Empty), st);
    }
  }
}


