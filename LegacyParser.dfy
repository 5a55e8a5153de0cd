/** The older parser of the Rust assembler (`parser.rs`): token helpers,
 * register operands, the statement dispatch of a scope, and its own copy
 * of the precedence-climbing evaluator, whose errors are plain messages.
 * It reads a token sequence through a peeking iterator; here the iterator
 * is a position in the sequence. */
module LegacyParser {
  import opened Wrappers
  import opened Tokens
  import opened I32
  import Registers
  import ExprParser

  /** A parse step: a value and the position after it, an error message,
   * or a panic (`-` overflowing in a debug build). */
  datatype Outcome<T> = Parsed(value: T, next: nat) | Failed(message: string) | Panics

  type Symbols = map<string, i32>

  // ---------------------------------------------------------- token helpers

  /** `any_token`: consume the next token, which must be one of `expected`. */
  function AnyToken(ts: seq<Token>, pos: nat, expected: seq<Token>): (r: Result<nat, string>)
    requires pos <= |ts|
    ensures pos == |ts| <==> r == Err("Unexpected EOF")
    ensures r.Ok? <==> pos < |ts| && ts[pos] in expected
    ensures r.Ok? ==> r.value == pos + 1
    ensures pos < |ts| && ts[pos] !in expected ==> r == Err("Unexpected token")
  {
    if pos == |ts| then Err("Unexpected EOF")
    else if ts[pos] in expected then Ok(pos + 1)
    else Err("Unexpected token")
  }

  /** `one_token`: `any_token` with a single expected token. */
  function OneToken(ts: seq<Token>, pos: nat, expected: Token): (r: Result<nat, string>)
    requires pos <= |ts|
    ensures r.Ok? <==> pos < |ts| && ts[pos] == expected
    ensures r.Ok? ==> r.value == pos + 1
  {
    AnyToken(ts, pos, [expected])
  }

  /** `identifier`: the next token must be an identifier. */
  function Ident(ts: seq<Token>, pos: nat): (r: Result<(string, nat), string>)
    requires pos <= |ts|
    ensures r.Ok? <==> pos < |ts| && ts[pos].Identifier?
    ensures r.Ok? ==> r.value == (ts[pos].name, pos + 1)
    ensures r.Err? ==> r.error == "Unexpected token"
  {
    if pos < |ts| && ts[pos].Identifier? then Ok((ts[pos].name, pos + 1)) else Err("Unexpected token")
  }

  /** `gpr`: an identifier `r<n>` with `n` a `u16` below 8; anything else
   * after the identifier is "Bad format". */
  function Gpr(ts: seq<Token>, pos: nat): (r: Result<(Registers.Gpr, nat), string>)
    requires pos <= |ts|
    ensures r.Ok? <==> pos < |ts| && ts[pos].Identifier? && Registers.GprFromStr(ts[pos].name).Ok?
    ensures r.Ok? ==> r.value == (Registers.GprFromStr(ts[pos].name).value, pos + 1)
    ensures pos < |ts| && ts[pos].Identifier? && r.Err? ==> r.error == "Bad format"
  {
    match Ident(ts, pos)
    case Err(e) => Err(e)
    case Ok((name, next)) =>
      match Registers.GprFromStr(name)
      case Ok(g) => Ok((g, next))
      case Err(_) => Err("Bad format")
  }

  /** Every register name the register type displays is accepted. */
  lemma GprAcceptsDisplayed(ts: seq<Token>, pos: nat, g: Registers.Gpr)
    requires pos < |ts| && ts[pos] == Identifier(Registers.GprText(g))
    ensures Gpr(ts, pos) == Ok((g, pos + 1))
  {
    Registers.GprTextRoundTrip(g);
  }

  /** `cr`: an identifier naming a control register. */
  function Cr(ts: seq<Token>, pos: nat): (r: Result<(Registers.ControlRegister, nat), string>)
    requires pos <= |ts|
    ensures r.Ok? <==> pos < |ts| && ts[pos].Identifier? && Registers.CrFromStr(ts[pos].name).Some?
    ensures pos < |ts| && ts[pos].Identifier? && r.Err? ==> r.error == "Unexpected control register name"
  {
    match Ident(ts, pos)
    case Err(e) => Err(e)
    case Ok((name, next)) =>
      match Registers.CrFromStr(name)
      case Some(c) => Ok((c, next))
      case None => Err("Unexpected control register name")
  }

  // --------------------------------------------------------- scope dispatch

  /** What one turn of the `scope_rest` loop does, by the next one or two
   * tokens. `PeekAgain` is the `continue` of an end of line or `;`: the
   * token is only peeked, never consumed, so the next turn sees it
   * again. */
  datatype Action =
    | EndOfFile | ScopeEnd | Label | PseudoInstruction | Instruction
    | AnonymousScope | PeekAgain | ParseError(message: string)

  /** `scope_rest`'s `match`: end of input closes the top level, `}` closes
   * a nested scope, an identifier followed by `:` is a label, otherwise a
   * `.`-identifier is a pseudo-instruction and any other identifier an
   * instruction; `{` opens a scope, an end of line or `;` leads to
   * `PeekAgain` with the position unchanged, an error token and anything
   * else are errors. */
  function ScopeStep(ts: seq<Token>, pos: nat, topLevel: bool): (a: Action)
    requires pos <= |ts|
    ensures a == EndOfFile <==> pos == |ts| && topLevel
    ensures a == ScopeEnd <==> pos < |ts| && ts[pos] == RBrace && !topLevel
    ensures a == Label <==> pos + 1 < |ts| && ts[pos].Identifier? && ts[pos + 1] == Colon
    ensures a == PseudoInstruction <==>
      pos < |ts| && ts[pos].Identifier? && !(pos + 1 < |ts| && ts[pos + 1] == Colon)
      && |ts[pos].name| > 0 && ts[pos].name[0] == '.'
    ensures a == Instruction <==>
      pos < |ts| && ts[pos].Identifier? && !(pos + 1 < |ts| && ts[pos + 1] == Colon)
      && !(|ts[pos].name| > 0 && ts[pos].name[0] == '.')
    ensures a == AnonymousScope <==> pos < |ts| && ts[pos] == LBrace
    ensures a == PeekAgain <==> pos < |ts| && (ts[pos] == Eol || ts[pos] == Semicolon)
    ensures a == ParseError("Error parsing") <==> pos < |ts| && ts[pos] == Error
  {
    if pos == |ts| then
      if topLevel then EndOfFile else ParseError("Unexpected token")
    else
      match ts[pos]
      case RBrace => if !topLevel then ScopeEnd else ParseError("Unexpected token")
      case Identifier(name) =>
        if pos + 1 < |ts| && ts[pos + 1] == Colon then Label
        else if |name| > 0 && name[0] == '.' then PseudoInstruction
        else Instruction
      case LBrace => AnonymousScope
      case Eol => PeekAgain
      case Semicolon => PeekAgain
      case Error => ParseError("Error parsing")
      case _ => ParseError("Unexpected token")
  }

  // ------------------------------------------------------------- operators

  /** This copy's `binary_operator_precedence`: `* / %` loosest and `|`
   * tightest. */
  function Precedence(t: Token): (r: Option<nat>)
    ensures r.Some? ==> r.value <= 6
  {
    match t
    case Asterisk | Slash | Percent => Some(0)
    case Plus | Minus => Some(1)
    case Shl | Shr => Some(2)
    case Eq | Neq | Lt | Gt | Le | Ge => Some(3)
    case BitAnd => Some(4)
    case BitXor => Some(5)
    case BitOr => Some(6)
    case _ => None
  }

  /** The table is the newer parser's turned upside down: the same
   * operators, level `6 - p` for level `p`. */
  lemma PrecedenceReversed(t: Token)
    ensures Precedence(t).Some? <==> ExprParser.Precedence(t).Some?
    ensures Precedence(t).Some? ==> Precedence(t).value == 6 - ExprParser.Precedence(t).value
  {
  }

  /** `eval_binary_operator` of this copy: the same checked operations as
   * the newer parser, with messages for errors. */
  function EvalBinary(lhs: i32, rhs: i32, op: Token): (r: Result<i32, string>)
    requires ExprParser.Evaluable(op)
    ensures r.Ok? <==> ExprParser.Eval(lhs, op, rhs).Some?
    ensures r.Ok? ==> r.value == ExprParser.Eval(lhs, op, rhs).value
    ensures r.Err? ==> (r.error == "Negative shift amount" <==> (op == Shl || op == Shr) && rhs < 0)
    ensures r.Err? ==> r.error == "Negative shift amount" || r.error == "Value out of range"
  {
    if (op == Shl || op == Shr) && rhs < 0 then Err("Negative shift amount")
    else
      match ExprParser.Apply(lhs, rhs, op)
      case Some(v) => Ok(v)
      case None => Err("Value out of range")
  }

  predicate StartsWithOp(ts: seq<Token>, pos: nat, minPrecedence: nat)
  {
    pos < |ts| && Precedence(ts[pos]).Some? && Precedence(ts[pos]).value >= minPrecedence
  }

  // --------------------------------------------------------------- parsing

  /** `expr::expression`. */
  function Expression(ts: seq<Token>, pos: nat, syms: Symbols): (r: Outcome<i32>)
    requires pos <= |ts|
    ensures r.Parsed? ==> pos < r.next <= |ts| && !StartsWithOp(ts, r.next, 0)
    decreases |ts| - pos, 3
  {
    match Value(ts, pos, syms)
    case Parsed(v, p) => Main(v, 0, ts, p, syms)
    case Failed(m) => Failed(m)
    case Panics => Panics
  }

  /** `expr::value`: as in the newer parser, but `-` negates without a
   * check, which overflows (a panic) on `i32::MIN`. */
  function Value(ts: seq<Token>, pos: nat, syms: Symbols): (r: Outcome<i32>)
    requires pos <= |ts|
    ensures r.Parsed? ==> pos < r.next <= |ts|
    decreases |ts| - pos, 2
  {
    if pos == |ts| then Failed("Unepected EOF")
    else
      match ts[pos]
      case Number(n) => Parsed(n, pos + 1)
      case Identifier(name) =>
        if name in syms then Parsed(syms[name], pos + 1) else Failed("Undefined identifier")
      case LParen =>
        (match Expression(ts, pos + 1, syms)
         case Parsed(v, p) =>
           (match OneToken(ts, p, RParen)
            case Ok(q) => Parsed(v, q)
            case Err(m) => Failed(m))
         case Failed(m) => Failed(m)
         case Panics => Panics)
      case Plus => Value(ts, pos + 1, syms)
      case Minus =>
        (match Value(ts, pos + 1, syms)
         case Parsed(v, p) => if v == Min then Panics else Parsed(-v, p)
         case Failed(m) => Failed(m)
         case Panics => Panics)
      case Not =>
        (match Value(ts, pos + 1, syms)
         case Parsed(v, p) => Parsed(ExprParser.FromBool(v == 0), p)
         case Failed(m) => Failed(m)
         case Panics => Panics)
      case BitNot =>
        (match Value(ts, pos + 1, syms)
         case Parsed(v, p) => Parsed(I32.BitNot(v), p)
         case Failed(m) => Failed(m)
         case Panics => Panics)
      case _ => Failed("Unepected token")
  }

  /** `expr::main`, its outer loop as recursion. */
  function Main(lhs: i32, minPrecedence: nat, ts: seq<Token>, pos: nat, syms: Symbols): (r: Outcome<i32>)
    requires pos <= |ts|
    ensures r.Parsed? ==> pos <= r.next <= |ts| && !StartsWithOp(ts, r.next, minPrecedence)
    ensures r.Parsed? ==> (r.next == pos <==> !StartsWithOp(ts, pos, minPrecedence))
    ensures !StartsWithOp(ts, pos, minPrecedence) ==> r == Parsed(lhs, pos)
    decreases |ts| - pos, 0
  {
    if !StartsWithOp(ts, pos, minPrecedence) then Parsed(lhs, pos)
    else
      var op := ts[pos];
      PrecedenceReversed(op);
      match Value(ts, pos + 1, syms)
      case Failed(m) => Failed(m)
      case Panics => Panics
      case Parsed(rhs, p) =>
        match Climb(rhs, Precedence(op).value, ts, p, syms)
        case Failed(m) => Failed(m)
        case Panics => Panics
        case Parsed(c, q) =>
          match EvalBinary(lhs, c, op)
          case Err(m) => Failed(m)
          case Ok(x) => Main(x, minPrecedence, ts, q, syms)
  }

  /** `expr::main`'s inner loop. */
  function Climb(rhs: i32, precedence: nat, ts: seq<Token>, pos: nat, syms: Symbols): (r: Outcome<i32>)
    requires pos <= |ts|
    ensures r.Parsed? ==> pos <= r.next <= |ts| && !StartsWithOp(ts, r.next, precedence + 1)
    ensures !StartsWithOp(ts, pos, precedence + 1) ==> r == Parsed(rhs, pos)
    decreases |ts| - pos, 1
  {
    if !StartsWithOp(ts, pos, precedence + 1) then Parsed(rhs, pos)
    else
      match Main(rhs, precedence + 1, ts, pos, syms)
      case Parsed(m, p) => Climb(m, precedence, ts, p, syms)
      case Failed(msg) => Failed(msg)
      case Panics => Panics
  }

  /** `expr::main` as written, with its two loops and the recursive call. */
  method MainLoop(lhs0: i32, minPrecedence: nat, ts: seq<Token>, pos0: nat, syms: Symbols) returns (r: Outcome<i32>)
    requires pos0 <= |ts|
    ensures r == Main(lhs0, minPrecedence, ts, pos0, syms)
    decreases |ts| - pos0
  {
    var lhs, pos := lhs0, pos0;
    while StartsWithOp(ts, pos, minPrecedence)
      invariant pos0 <= pos <= |ts|
      invariant Main(lhs0, minPrecedence, ts, pos0, syms) == Main(lhs, minPrecedence, ts, pos, syms)
      decreases |ts| - pos
    {
      var op := ts[pos];
      PrecedenceReversed(op);
      var opPrecedence := Precedence(op).value;
      var v := Value(ts, pos + 1, syms);
      if !v.Parsed? {
        return if v.Panics? then Panics else Failed(v.message);
      }
      var rhs, p := v.value, v.next;
      while StartsWithOp(ts, p, opPrecedence + 1)
        invariant v.next <= p <= |ts|
        invariant Climb(v.value, opPrecedence, ts, v.next, syms) == Climb(rhs, opPrecedence, ts, p, syms)
        decreases |ts| - p
      {
        var m := MainLoop(rhs, opPrecedence + 1, ts, p, syms);
        if !m.Parsed? {
          return if m.Panics? then Panics else Failed(m.message);
        }
        rhs, p := m.value, m.next;
      }
      var x := EvalBinary(lhs, rhs, op);
      if x.Err? {
        return Failed(x.error);
      }
      lhs, pos := x.value, p;
    }
    return Parsed(lhs, pos);
  }

  // ------------------------------------------------------------- examples

  /** `!42` is 0, `!0` is 1 and `~1` is -2, each leaving the `+` after
   * it. */
  lemma ExampleUnary()
    ensures Value([Not, Number(42), Plus], 0, map[]) == Parsed(0, 2)
    ensures Value([Not, Number(0), Plus], 0, map[]) == Parsed(1, 2)
    ensures Value([BitNot, Number(1), Plus], 0, map[]) == Parsed(-2, 2)
  {
  }

  /** `--19` is 19, leaving the `+` after it. */
  lemma ExampleDoubleMinus()
    ensures Value([Minus, Minus, Number(19), Plus], 0, map[]) == Parsed(19, 3)
  {
    assert Value([Minus, Minus, Number(19), Plus], 1, map[]) == Parsed(-19, 3);
  }

  /** `+-~!0` is 2. */
  lemma ExampleAllUnary()
    ensures Value([Plus, Minus, BitNot, Not, Number(0), Plus], 0, map[]) == Parsed(2, 5)
  {
    var ts := [Plus, Minus, BitNot, Not, Number(0), Plus];
    assert Value(ts, 3, map[]) == Parsed(1, 5);
    assert Value(ts, 2, map[]) == Parsed(-2, 5);
  }

  /** Empty input, a lone `+`, `;` and an undefined `bar` all fail. */
  lemma ExampleValueErrors()
    ensures Value([], 0, map[]).Failed?
    ensures Value([Plus], 0, map[]).Failed?
    ensures Value([Semicolon], 0, map[]).Failed?
    ensures Value([Identifier("bar")], 0, map[]) == Failed("Undefined identifier")
  {
  }

  /** `(1` and `()` fail. */
  lemma ExampleParenErrors()
    ensures Value([LParen, Number(1)], 0, map[]) == Failed("Unexpected EOF")
    ensures Value([LParen, RParen], 0, map[]).Failed?
  {
    assert Value([LParen, Number(1)], 1, map[]) == Parsed(1, 2);
  }

  /** With the table upside down, `1 + 2 * 3` groups as `(1 + 2) * 3`. */
  lemma ExampleReversedPrecedence()
    ensures Expression([Number(1), Plus, Number(2), Asterisk, Number(3)], 0, map[]) == Parsed(9, 5)
  {
    var ts := [Number(1), Plus, Number(2), Asterisk, Number(3)];
    assert Value(ts, 2, map[]) == Parsed(2, 3);
    assert Climb(2, 1, ts, 3, map[]) == Parsed(2, 3);
    assert Main(1, 0, ts, 1, map[]) == Main(3, 0, ts, 3, map[]);
    assert Value(ts, 4, map[]) == Parsed(3, 5);
    assert Climb(3, 0, ts, 5, map[]) == Parsed(3, 5);
  }

  /** `-(-2147483647 - 1)`: the unchecked negation of `i32::MIN`. */
  lemma ExampleNegationPanics()
    ensures Value([Minus, LParen, Minus, Number(0x7fff_ffff), Minus, Number(1), RParen], 0, map[]) == Panics
  {
    var ts := [Minus, LParen, Minus, Number(0x7fff_ffff), Minus, Number(1), RParen];
    assert Value(ts, 2, map[]) == Parsed(-0x7fff_ffff, 4);
    assert Value(ts, 5, map[]) == Parsed(1, 6);
    assert Climb(1, 1, ts, 6, map[]) == Parsed(1, 6);
    assert Main(-0x7fff_ffff, 0, ts, 4, map[]) == Main(-0x8000_0000, 0, ts, 6, map[]);
    assert Expression(ts, 2, map[]) == Parsed(-0x8000_0000, 6);
    assert Value(ts, 1, map[]) == Parsed(-0x8000_0000, 7);
  }
}
