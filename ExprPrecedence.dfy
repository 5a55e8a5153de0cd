/** How `evaluate_expression` reads unparenthesised input: binary
 * operators follow their priorities and associate to the left, unary
 * operators bind tighter and nest to the right, malformed input is
 * rejected, and the `)` check as written rejects every parenthesis. */
module ExprPrecedence {
  import opened Wrappers
  import opened CTokenizer
  import I32
  import AsmTables
  import opened CExpressions
  import opened ExprSemantics

  type i32 = I32.i32

  // ------------------------------------------- precedence, associativity

  /** Popping a binary operator combines the two top values. */
  lemma PopBinary(vs: Stack<i32>, ops: Stack<Fun>, f: Fun, x: i32, y: i32)
    requires Arity(f) == 2
    ensures Apply(f, x, y).None? ==> Pop(Stacks(Push(Push(vs, x), y), Push(ops, f))) == Err(UndefinedBehaviour)
    ensures Apply(f, x, y).Some? ==> Pop(Stacks(Push(Push(vs, x), y), Push(ops, f))) == Ok(Stacks(Push(vs, Apply(f, x, y).value), ops))
  {
    assert Depth(Push(Push(vs, x), y)) == Depth(vs) + 2;
  }

  /** Popping a unary operator replaces the top value. */
  lemma PopUnary(vs: Stack<i32>, ops: Stack<Fun>, u: Fun, x: i32)
    requires Arity(u) == 1
    ensures Apply(u, 0, x).None? ==> Pop(Stacks(Push(vs, x), Push(ops, u))) == Err(UndefinedBehaviour)
    ensures Apply(u, 0, x).Some? ==> Pop(Stacks(Push(vs, x), Push(ops, u))) == Ok(Stacks(Push(vs, Apply(u, 0, x).value), ops))
  {
  }

  /** At the end of the stream every operator left is popped in turn. */
  lemma FinishPop(s: Stacks, n: nat, st: AsmTables.AsmState)
    requires s.ops.Push?
    ensures Finish(Scanned(Ok(s), n, st)) ==
      if Pop(s).Err? then Evaluated(Err(Pop(s).error), n, st) else Finish(Scanned(Ok(Pop(s).value), n, st))
  {
  }

  /** A binary operator left at the end is applied to the two top values. */
  lemma FinishBinary(vs: Stack<i32>, ops: Stack<Fun>, f: Fun, x: i32, y: i32, n: nat, st: AsmTables.AsmState)
    requires Arity(f) == 2
    ensures Apply(f, x, y).None? ==>
      Finish(Scanned(Ok(Stacks(Push(Push(vs, x), y), Push(ops, f))), n, st)) == Evaluated(Err(UndefinedBehaviour), n, st)
    ensures Apply(f, x, y).Some? ==>
      Finish(Scanned(Ok(Stacks(Push(Push(vs, x), y), Push(ops, f))), n, st)) == Finish(Scanned(Ok(Stacks(Push(vs, Apply(f, x, y).value), ops)), n, st))
  {
    PopBinary(vs, ops, f, x, y);
    FinishPop(Stacks(Push(Push(vs, x), y), Push(ops, f)), n, st);
  }

  /** A unary operator left at the end is applied to the top value. */
  lemma FinishUnary(vs: Stack<i32>, ops: Stack<Fun>, u: Fun, x: i32, n: nat, st: AsmTables.AsmState)
    requires Arity(u) == 1
    ensures Apply(u, 0, x).None? ==>
      Finish(Scanned(Ok(Stacks(Push(vs, x), Push(ops, u))), n, st)) == Evaluated(Err(UndefinedBehaviour), n, st)
    ensures Apply(u, 0, x).Some? ==>
      Finish(Scanned(Ok(Stacks(Push(vs, x), Push(ops, u))), n, st)) == Finish(Scanned(Ok(Stacks(Push(vs, Apply(u, 0, x).value), ops)), n, st))
  {
    PopUnary(vs, ops, u, x);
    FinishPop(Stacks(Push(vs, x), Push(ops, u)), n, st);
  }

  /** One value and no operator left at the end: that value is the
   * outcome. */
  lemma FinishSingle(v: i32, n: nat, st: AsmTables.AsmState)
    ensures Finish(Scanned(Ok(Stacks(Push(Empty, v), Empty)), n, st)) == Evaluated(Ok(v), n, st)
  {
    assert Depth(Push(Empty, v)) == 1;
  }

  /** `x f y` left at the end: the outcome is `f` applied to them. */
  lemma FinishOne(f: Fun, x: i32, y: i32, n: nat, st: AsmTables.AsmState)
    requires Arity(f) == 2
    ensures Finish(Scanned(Ok(Stacks(Push(Push(Empty, x), y), Push(Empty, f))), n, st)).value == Lift(Apply(f, x, y))
  {
    FinishBinary(Empty, Empty, f, x, y, n, st);
    if Apply(f, x, y).Some? {
      FinishSingle(Apply(f, x, y).value, n, st);
    }
  }

  /** `u x` left at the end: the outcome is `u` applied to it. */
  lemma FinishOneUnary(u: Fun, x: i32, n: nat, st: AsmTables.AsmState)
    requires Arity(u) == 1
    ensures Finish(Scanned(Ok(Stacks(Push(Empty, x), Push(Empty, u))), n, st)).value == Lift(Apply(u, 0, x))
  {
    FinishUnary(Empty, Empty, u, x, n, st);
    if Apply(u, 0, x).Some? {
      FinishSingle(Apply(u, 0, x).value, n, st);
    }
  }

  /** `evaluate_expression`, with the `)` check as intended, yields the
   * value of the tree `e` from the stream `toks`. */
  predicate EvaluatesTo(toks: seq<Token>, e: Expr, st: AsmTables.AsmState)
  {
    EvaluateSpec(toks, 0, st, false).value == Lift(Eval(e))
  }

  /** The scan of `a f b g c`, where `f` binds less tightly than `g`,
   * leaves all three values and both operators on the stacks. */
  lemma PrecedenceRightScan(a: i32, f: Fun, b: i32, g: Fun, c: i32, st: AsmTables.AsmState)
    requires Arity(f) == 2 && Arity(g) == 2 && Priority(f) < Priority(g)
    ensures EvaluateSpec([Number(a), TokenOf(f), Number(b), TokenOf(g), Number(c)], 0, st, false) ==
      Finish(Scanned(Ok(Stacks(Push(Push(Push(Empty, a), b), c), Push(Push(Empty, f), g))), 5, st))
  {
    var toks := [Number(a), TokenOf(f), Number(b), TokenOf(g), Number(c)];
    OperatorForEntry(f);
    OperatorForEntry(g);
    ScanValue(toks, 0, 1, Stacks(Empty, Empty), Stacks(Push(Empty, a), Empty), st, a);
    ScanOperator(toks, 1, 2, Stacks(Push(Empty, a), Empty), true, st, f, Stacks(Push(Empty, a), Empty), Stacks(Push(Empty, a), Push(Empty, f)));
    ScanValue(toks, 2, 3, Stacks(Push(Empty, a), Push(Empty, f)), Stacks(Push(Push(Empty, a), b), Push(Empty, f)), st, b);
    ScanOperator(toks, 3, 4, Stacks(Push(Push(Empty, a), b), Push(Empty, f)), true, st, g, Stacks(Push(Push(Empty, a), b), Push(Empty, f)), Stacks(Push(Push(Empty, a), b), Push(Push(Empty, f), g)));
    ScanValue(toks, 4, 5, Stacks(Push(Push(Empty, a), b), Push(Push(Empty, f), g)), Stacks(Push(Push(Push(Empty, a), b), c), Push(Push(Empty, f), g)), st, c);
    FinishEnd(toks, 5, Stacks(Push(Push(Push(Empty, a), b), c), Push(Push(Empty, f), g)), st);
  }

  /** At the end, `a b c` under `f g`: `g` is applied first. */
  lemma FinishInner(a: i32, f: Fun, b: i32, g: Fun, c: i32, n: nat, st: AsmTables.AsmState)
    requires Arity(f) == 2 && Arity(g) == 2
    ensures Apply(g, b, c).None? ==> Finish(Scanned(Ok(Stacks(Push(Push(Push(Empty, a), b), c), Push(Push(Empty, f), g))), n, st)).value == Err(UndefinedBehaviour)
    ensures Apply(g, b, c).Some? ==>
      Finish(Scanned(Ok(Stacks(Push(Push(Push(Empty, a), b), c), Push(Push(Empty, f), g))), n, st)) == Finish(Scanned(Ok(Stacks(Push(Push(Empty, a), Apply(g, b, c).value), Push(Empty, f))), n, st))
  {
    FinishBinary(Push(Empty, a), Push(Empty, f), g, b, c, n, st);
  }

  /** The value of `a f (b g c)` is what the stacks left by the scan
   * reduce to. */
  lemma PrecedenceRightValue(a: i32, f: Fun, b: i32, g: Fun, c: i32, n: nat, st: AsmTables.AsmState)
    requires Arity(f) == 2 && Arity(g) == 2
    ensures Finish(Scanned(Ok(Stacks(Push(Push(Push(Empty, a), b), c), Push(Push(Empty, f), g))), n, st)).value == Lift(Eval(Binary(f, Num(a), Binary(g, Num(b), Num(c)))))
  {
    FinishInner(a, f, b, g, c, n, st);
    var inner := Binary(g, Num(b), Num(c));
    assert Eval(inner) == Apply(g, b, c);
    if Apply(g, b, c).Some? {
      var v := Apply(g, b, c).value;
      FinishOne(f, a, v, n, st);
      assert Eval(Binary(f, Num(a), inner)) == Apply(f, a, v);
    } else {
      assert Eval(Binary(f, Num(a), inner)) == None;
    }
  }

  /** `a f b g c`, where `f` binds less tightly than `g`: `g` is applied
   * first. */
  lemma PrecedenceRight(a: i32, f: Fun, b: i32, g: Fun, c: i32, st: AsmTables.AsmState)
    requires Arity(f) == 2 && Arity(g) == 2 && Priority(f) < Priority(g)
    ensures EvaluatesTo([Number(a), TokenOf(f), Number(b), TokenOf(g), Number(c)], Binary(f, Num(a), Binary(g, Num(b), Num(c))), st)
  {
    PrecedenceRightScan(a, f, b, g, c, st);
    PrecedenceRightValue(a, f, b, g, c, 5, st);
  }

  /** `a b` under `f`, reduced for an operator `g` binding at most as
   * tightly as `f`: `f` is applied. */
  lemma ReduceWeakerBinary(a: i32, f: Fun, b: i32, g: Fun)
    requires Arity(f) == 2 && Arity(g) == 2 && Priority(f) >= Priority(g)
    ensures Apply(f, a, b).None? ==> Reduce(Stacks(Push(Push(Empty, a), b), Push(Empty, f)), ToWeaker(g)) == Err(UndefinedBehaviour)
    ensures Apply(f, a, b).Some? ==> Reduce(Stacks(Push(Push(Empty, a), b), Push(Empty, f)), ToWeaker(g)) == Ok(Stacks(Push(Empty, Apply(f, a, b).value), Empty))
  {
    assert !Stops(f, ToWeaker(g));
    PopBinary(Empty, Empty, f, a, b);
  }

  /** `a` under `u`, reduced for a binary operator `f`: `u` is applied. */
  lemma ReduceWeakerUnary(u: Fun, a: i32, f: Fun)
    requires Arity(u) == 1 && Arity(f) == 2
    ensures Apply(u, 0, a).None? ==> Reduce(Stacks(Push(Empty, a), Push(Empty, u)), ToWeaker(f)) == Err(UndefinedBehaviour)
    ensures Apply(u, 0, a).Some? ==> Reduce(Stacks(Push(Empty, a), Push(Empty, u)), ToWeaker(f)) == Ok(Stacks(Push(Empty, Apply(u, 0, a).value), Empty))
  {
    assert !Stops(u, ToWeaker(f));
    PopUnary(Empty, Empty, u, a);
  }

  /** An operator `g` after `a f b`, where `f` binds at least as tightly:
   * `f` is popped and applied, then `g` is pushed. */
  lemma ScanPopBinary(toks: seq<Token>, i: nat, j: nat, a: i32, f: Fun, b: i32, g: Fun, st: AsmTables.AsmState)
    requires At(toks, i) == TokenOf(g) && Arity(f) == 2 && Arity(g) == 2 && Priority(f) >= Priority(g) && j == i + 1
    ensures Apply(f, a, b).None? ==> Scan(toks, i, Stacks(Push(Push(Empty, a), b), Push(Empty, f)), true, st, false) == Scanned(Err(UndefinedBehaviour), j, st)
    ensures Apply(f, a, b).Some? ==> Leads(toks, i, Stacks(Push(Push(Empty, a), b), Push(Empty, f)), true, j, Stacks(Push(Empty, Apply(f, a, b).value), Push(Empty, g)), false, st)
  {
    OperatorForEntry(g);
    ReduceWeakerBinary(a, f, b, g);
    if Apply(f, a, b).None? {
      ScanOperatorFails(toks, i, Stacks(Push(Push(Empty, a), b), Push(Empty, f)), true, st, g, UndefinedBehaviour);
    } else {
      ScanOperator(toks, i, j, Stacks(Push(Push(Empty, a), b), Push(Empty, f)), true, st, g, Stacks(Push(Empty, Apply(f, a, b).value), Empty), Stacks(Push(Empty, Apply(f, a, b).value), Push(Empty, g)));
    }
  }

  /** An operator `f` after `u a`: `u` is popped and applied, then `f` is
   * pushed. */
  lemma ScanPopUnary(toks: seq<Token>, i: nat, j: nat, u: Fun, a: i32, f: Fun, st: AsmTables.AsmState)
    requires At(toks, i) == TokenOf(f) && Arity(u) == 1 && Arity(f) == 2 && j == i + 1
    ensures Apply(u, 0, a).None? ==> Scan(toks, i, Stacks(Push(Empty, a), Push(Empty, u)), true, st, false) == Scanned(Err(UndefinedBehaviour), j, st)
    ensures Apply(u, 0, a).Some? ==> Leads(toks, i, Stacks(Push(Empty, a), Push(Empty, u)), true, j, Stacks(Push(Empty, Apply(u, 0, a).value), Push(Empty, f)), false, st)
  {
    OperatorForEntry(f);
    ReduceWeakerUnary(u, a, f);
    if Apply(u, 0, a).None? {
      ScanOperatorFails(toks, i, Stacks(Push(Empty, a), Push(Empty, u)), true, st, f, UndefinedBehaviour);
    } else {
      ScanOperator(toks, i, j, Stacks(Push(Empty, a), Push(Empty, u)), true, st, f, Stacks(Push(Empty, Apply(u, 0, a).value), Empty), Stacks(Push(Empty, Apply(u, 0, a).value), Push(Empty, f)));
    }
  }

  /** The scan of `a f b g c`, where `f` binds at least as tightly as `g`:
   * `g` pops `f`, which is applied before `g` is pushed. */
  lemma PrecedenceLeftScan(a: i32, f: Fun, b: i32, g: Fun, c: i32, st: AsmTables.AsmState)
    requires Arity(f) == 2 && Arity(g) == 2 && Priority(f) >= Priority(g)
    ensures Apply(f, a, b).None? ==>
      EvaluateSpec([Number(a), TokenOf(f), Number(b), TokenOf(g), Number(c)], 0, st, false).value == Err(UndefinedBehaviour)
    ensures Apply(f, a, b).Some? ==>
      EvaluateSpec([Number(a), TokenOf(f), Number(b), TokenOf(g), Number(c)], 0, st, false) ==
      Finish(Scanned(Ok(Stacks(Push(Push(Empty, Apply(f, a, b).value), c), Push(Empty, g))), 5, st))
  {
    var toks := [Number(a), TokenOf(f), Number(b), TokenOf(g), Number(c)];
    OperatorForEntry(f);
    ScanValue(toks, 0, 1, Stacks(Empty, Empty), Stacks(Push(Empty, a), Empty), st, a);
    ScanOperator(toks, 1, 2, Stacks(Push(Empty, a), Empty), true, st, f, Stacks(Push(Empty, a), Empty), Stacks(Push(Empty, a), Push(Empty, f)));
    ScanValue(toks, 2, 3, Stacks(Push(Empty, a), Push(Empty, f)), Stacks(Push(Push(Empty, a), b), Push(Empty, f)), st, b);
    ScanPopBinary(toks, 3, 4, a, f, b, g, st);
    if Apply(f, a, b).Some? {
      var x := Apply(f, a, b).value;
      ScanValue(toks, 4, 5, Stacks(Push(Empty, x), Push(Empty, g)), Stacks(Push(Push(Empty, x), c), Push(Empty, g)), st, c);
      FinishEnd(toks, 5, Stacks(Push(Push(Empty, x), c), Push(Empty, g)), st);
    }
  }

  /** The value of `(a f b) g c` is what the stacks left by the scan reduce
   * to. */
  lemma PrecedenceLeftValue(a: i32, f: Fun, b: i32, g: Fun, c: i32, n: nat, st: AsmTables.AsmState)
    requires Arity(f) == 2 && Arity(g) == 2
    ensures Apply(f, a, b).None? ==> Lift(Eval(Binary(g, Binary(f, Num(a), Num(b)), Num(c)))) == Err(UndefinedBehaviour)
    ensures Apply(f, a, b).Some? ==>
      Finish(Scanned(Ok(Stacks(Push(Push(Empty, Apply(f, a, b).value), c), Push(Empty, g))), n, st)).value == Lift(Eval(Binary(g, Binary(f, Num(a), Num(b)), Num(c))))
  {
    assert Eval(Binary(f, Num(a), Num(b))) == Apply(f, a, b);
    if Apply(f, a, b).Some? {
      FinishOne(g, Apply(f, a, b).value, c, n, st);
    }
  }

  /** `a f b g c`, where `f` binds at least as tightly as `g`: `f` is
   * applied first (left associativity when the priorities are equal). */
  lemma PrecedenceLeft(a: i32, f: Fun, b: i32, g: Fun, c: i32, st: AsmTables.AsmState)
    requires Arity(f) == 2 && Arity(g) == 2 && Priority(f) >= Priority(g)
    ensures EvaluatesTo([Number(a), TokenOf(f), Number(b), TokenOf(g), Number(c)], Binary(g, Binary(f, Num(a), Num(b)), Num(c)), st)
  {
    PrecedenceLeftScan(a, f, b, g, c, st);
    PrecedenceLeftValue(a, f, b, g, c, 5, st);
  }

  /** The scan of `u a f b`: `f` pops `u`, which is applied before `f` is
   * pushed. */
  lemma UnaryBeforeBinaryScan(u: Fun, a: i32, f: Fun, b: i32, st: AsmTables.AsmState)
    requires Arity(u) == 1 && Arity(f) == 2
    ensures Apply(u, 0, a).None? ==>
      EvaluateSpec([TokenOf(u), Number(a), TokenOf(f), Number(b)], 0, st, false).value == Err(UndefinedBehaviour)
    ensures Apply(u, 0, a).Some? ==>
      EvaluateSpec([TokenOf(u), Number(a), TokenOf(f), Number(b)], 0, st, false) ==
      Finish(Scanned(Ok(Stacks(Push(Push(Empty, Apply(u, 0, a).value), b), Push(Empty, f))), 4, st))
  {
    var toks := [TokenOf(u), Number(a), TokenOf(f), Number(b)];
    OperatorForEntry(u);
    ScanOperator(toks, 0, 1, Stacks(Empty, Empty), false, st, u, Stacks(Empty, Empty), Stacks(Empty, Push(Empty, u)));
    ScanValue(toks, 1, 2, Stacks(Empty, Push(Empty, u)), Stacks(Push(Empty, a), Push(Empty, u)), st, a);
    ScanPopUnary(toks, 2, 3, u, a, f, st);
    if Apply(u, 0, a).Some? {
      var x := Apply(u, 0, a).value;
      ScanValue(toks, 3, 4, Stacks(Push(Empty, x), Push(Empty, f)), Stacks(Push(Push(Empty, x), b), Push(Empty, f)), st, b);
      FinishEnd(toks, 4, Stacks(Push(Push(Empty, x), b), Push(Empty, f)), st);
    }
  }

  /** `u a f b`: a unary operator binds tighter than any binary one. */
  lemma UnaryBeforeBinary(u: Fun, a: i32, f: Fun, b: i32, st: AsmTables.AsmState)
    requires Arity(u) == 1 && Arity(f) == 2
    ensures EvaluatesTo([TokenOf(u), Number(a), TokenOf(f), Number(b)], Binary(f, Unary(u, Num(a)), Num(b)), st)
  {
    UnaryBeforeBinaryScan(u, a, f, b, st);
    assert Eval(Unary(u, Num(a))) == Apply(u, 0, a);
    if Apply(u, 0, a).Some? {
      FinishOne(f, Apply(u, 0, a).value, b, 4, st);
    }
  }

  /** `u1 u2 a`: unary operators nest to the right. */
  lemma UnaryNesting(u1: Fun, u2: Fun, a: i32, st: AsmTables.AsmState)
    requires Arity(u1) == 1 && Arity(u2) == 1
    ensures EvaluatesTo([TokenOf(u1), TokenOf(u2), Number(a)], Unary(u1, Unary(u2, Num(a))), st)
  {
    var toks := [TokenOf(u1), TokenOf(u2), Number(a)];
    OperatorForEntry(u1);
    OperatorForEntry(u2);
    PriorityBounds(u1);
    ScanOperator(toks, 0, 1, Stacks(Empty, Empty), false, st, u1, Stacks(Empty, Empty), Stacks(Empty, Push(Empty, u1)));
    ScanOperator(toks, 1, 2, Stacks(Empty, Push(Empty, u1)), false, st, u2, Stacks(Empty, Push(Empty, u1)), Stacks(Empty, Push(Push(Empty, u1), u2)));
    ScanValue(toks, 2, 3, Stacks(Empty, Push(Push(Empty, u1), u2)), Stacks(Push(Empty, a), Push(Push(Empty, u1), u2)), st, a);
    FinishEnd(toks, 3, Stacks(Push(Empty, a), Push(Push(Empty, u1), u2)), st);
    FinishUnary(Empty, Push(Empty, u1), u2, a, 3, st);
    assert Eval(Unary(u2, Num(a))) == Apply(u2, 0, a);
    if Apply(u2, 0, a).Some? {
      FinishOneUnary(u1, Apply(u2, 0, a).value, 3, st);
    }
  }

  // -------------------------------------------------------------- errors

  /** Two values in a row, a `)` with no `(`, a `(` never closed, and no
   * value at all. */
  lemma SyntaxErrors(a: i32, b: i32, st: AsmTables.AsmState)
    ensures EvaluateSpec([Number(a), Number(b)], 0, st, false) == Evaluated(Err(NumberAfterValue), 1, st)
    ensures EvaluateSpec([Number(a), Char(')')], 0, st, false) == Evaluated(Err(UnexpectedClose), 2, st)
    ensures EvaluateSpec([Char('('), Number(a)], 0, st, false).value == Err(AssertionFailure)
    ensures EvaluateSpec([], 0, st, false).value == Err(ValuesLeft(0))
  {
    var t1 := [Number(a), Number(b)];
    ScanValue(t1, 0, 1, Stacks(Empty, Empty), Stacks(Push(Empty, a), Empty), st, a);
    ScanUnfold(t1, 1, Stacks(Push(Empty, a), Empty), true, st, false);
    var t2 := [Number(a), Char(')')];
    ScanValue(t2, 0, 1, Stacks(Empty, Empty), Stacks(Push(Empty, a), Empty), st, a);
    ScanUnfold(t2, 1, Stacks(Push(Empty, a), Empty), true, st, false);
    var t3 := [Char('('), Number(a)];
    ScanOpen(t3, 0, 1, Stacks(Empty, Empty), st);
    ScanValue(t3, 1, 2, Stacks(Empty, Push(Empty, Paren)), Stacks(Push(Empty, a), Push(Empty, Paren)), st, a);
    FinishEnd(t3, 2, Stacks(Push(Empty, a), Push(Empty, Paren)), st);
    assert Pop(Stacks(Push(Empty, a), Push(Empty, Paren))) == Err(AssertionFailure);
    ScanEnd([], 0, Stacks(Empty, Empty), false, st, false);
  }

  // -------------------------------------------------- the `)` check

  /** The tokens of `(1)` as written: the `(` and the `1` are scanned as
   * intended, and the `)` finds the `(` on the operator stack and fails
   * the check. */
  lemma AsWrittenSteps(toks: seq<Token>, st: AsmTables.AsmState)
    requires toks == [Char('('), Number(1), Char(')')]
    ensures Scan(toks, 0, Stacks(Empty, Empty), false, st, true) == Scanned(Err(AssertionFailure), 3, st)
  {
    ReduceBeforeParen(Stacks(Empty, Empty));
    OperatorForEntry(Paren);
    NoCloseOperator(Paren);
    ScanUnfold(toks, 0, Stacks(Empty, Empty), false, st, true);
    assert StepAt(toks, 0, Stacks(Empty, Empty), false, st, true) == Continue(Stacks(Empty, Push(Empty, Paren)), false, st);
    ScanUnfold(toks, 1, Stacks(Empty, Push(Empty, Paren)), false, st, true);
    assert StepAt(toks, 1, Stacks(Empty, Push(Empty, Paren)), false, st, true) == Continue(Stacks(Push(Empty, 1), Push(Empty, Paren)), true, st);
    ScanUnfold(toks, 2, Stacks(Push(Empty, 1), Push(Empty, Paren)), true, st, true);
    assert StepAt(toks, 2, Stacks(Push(Empty, 1), Push(Empty, Paren)), true, st, true) == Stop(Scanned(Err(AssertionFailure), 3, st));
  }

  /** As written, the check after a `)` wants a `)` on the operator stack,
   * where only a `(` can be: the tokens of `(1)` abort, while the
   * intended check yields 1. */
  lemma ParenCheckAsWritten(st: AsmTables.AsmState)
    ensures EvaluateSpec([Char('('), Number(1), Char(')')], 0, st, true).value == Err(AssertionFailure)
    ensures EvaluateSpec([Char('('), Number(1), Char(')')], 0, st, false) == Evaluated(Ok(1), 3, st)
  {
    var toks := [Char('('), Number(1), Char(')')];
    ScanOpen(toks, 0, 1, Stacks(Empty, Empty), st);
    ScanValue(toks, 1, 2, Stacks(Empty, Push(Empty, Paren)), Stacks(Push(Empty, 1), Push(Empty, Paren)), st, 1);
    ScanClose(toks, 2, 3, Stacks(Push(Empty, 1), Push(Empty, Paren)), st, Stacks(Push(Empty, 1), Push(Empty, Paren)), Stacks(Push(Empty, 1), Empty));
    FinishEnd(toks, 3, Stacks(Push(Empty, 1), Empty), st);
    AsWrittenSteps(toks, st);
  }
}
