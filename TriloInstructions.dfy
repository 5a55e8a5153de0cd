/** Argument fields of the Python prototype assembler for the 8-bit
 * machine (`trilo8bit/assembler/instructions.py`): the range checks that
 * turn an immediate or a jump target into the bits of an instruction
 * field, and the checks an encoding string must pass before instruction
 * functions are generated from it.
 *
 * Python's `x & ((1 << b) - 1)` is `x % Pow2(b)` here, for negative `x` as
 * well, since both give the non-negative residue. A shift by a negative
 * count (`1 << -1`, when a field is 0 bits wide) raises `ValueError` in
 * Python and is the error `NegativeShift`. */
module TriloInstructions {
  import opened Wrappers
  import opened Arith

  datatype FieldError =
    | NegativeShift
    | ValueOutOfRange
    | JumpTargetTooFar
    | NameNotDefined
    | SymbolNotFound(name: string)
    | NonIntegerBytes
    | UnexpectedCharacter(c: char)

  /** The value a `bits`-wide two's complement field holds. */
  function Signed(r: nat, bits: nat): (v: int)
    requires bits > 0 && r < Pow2(bits)
  {
    if r >= Pow2(bits - 1) then r - Pow2(bits) else r
  }

  lemma HalfPow2(bits: nat)
    requires bits > 0
    ensures Pow2(bits) == 2 * Pow2(bits - 1)
  {
  }

  /** `_parse_i`: any value that fits `bits` bits either as an unsigned or
   * as a signed number, stored as its low `bits` bits. */
  function ParseI(value: int, bits: nat): (r: Result<nat, FieldError>)
  {
    if bits == 0 then Err(NegativeShift)
    else if -(Pow2(bits - 1) as int) <= value <= Pow2(bits) - 1 then Ok(value % Pow2(bits))
    else Err(ValueOutOfRange)
  }

  /** The immediate field keeps every value it accepts: a non-negative one
   * as itself, a negative one as its two's complement, which reads back as
   * the value; everything else is out of range. */
  lemma ParseIKeeps(value: int, bits: nat)
    ensures ParseI(value, bits).Ok? <==> bits > 0 && -(Pow2(bits - 1) as int) <= value < Pow2(bits)
    ensures ParseI(value, bits).Ok? ==> ParseI(value, bits).value < Pow2(bits)
    ensures ParseI(value, bits).Ok? && value >= 0 ==> ParseI(value, bits).value == value
    ensures ParseI(value, bits).Ok? && value < 0 ==>
      ParseI(value, bits).value == value + Pow2(bits) && Signed(ParseI(value, bits).value, bits) == value
    ensures bits == 0 ==> ParseI(value, bits) == Err(NegativeShift)
  {
    if bits > 0 && -(Pow2(bits - 1) as int) <= value < 0 {
      HalfPow2(bits);
      DivModUnique(value, Pow2(bits), -1, value + Pow2(bits));
    } else if bits > 0 && 0 <= value < Pow2(bits) {
      DivModUnique(value, Pow2(bits), 0, value);
    }
  }

  /** The argument of a relative jump: a distance given as a number, or a
   * target given as a label or as a label's name. */
  datatype JumpArg = Distance(d: int) | Target(ref: TargetRef)
  datatype TargetRef = Label(location: int) | Name(name: string)

  /** A signed `bits`-wide field, or `err` when `v` does not fit. */
  function SignedField(v: int, bits: nat, err: FieldError): (r: Result<nat, FieldError>)
    requires bits > 0
  {
    if -(Pow2(bits - 1) as int) <= v <= Pow2(bits - 1) - 1 then Ok(v % Pow2(bits)) else Err(err)
  }

  /** A signed field reads back as the value it was given. */
  lemma SignedFieldKeeps(v: int, bits: nat, err: FieldError)
    requires bits > 0
    ensures SignedField(v, bits, err).Ok? <==> -(Pow2(bits - 1) as int) <= v < Pow2(bits - 1)
    ensures SignedField(v, bits, err).Err? ==> SignedField(v, bits, err).error == err
    ensures SignedField(v, bits, err).Ok? ==>
      SignedField(v, bits, err).value < Pow2(bits) && Signed(SignedField(v, bits, err).value, bits) == v
  {
    HalfPow2(bits);
    if -(Pow2(bits - 1) as int) <= v < 0 {
      DivModUnique(v, Pow2(bits), -1, v + Pow2(bits));
    } else if 0 <= v < Pow2(bits - 1) {
      DivModUnique(v, Pow2(bits), 0, v);
    }
  }

  /** `_parse_j`. `located` is what the current pass's
   * `get_symbol_location` answered for a target (always `None` in the
   * first pass, which then encodes 0) and `current` its current location.
   * The distance stored is from the word after the jump. */
  function ParseJ(arg: JumpArg, bits: nat, located: Result<Option<int>, FieldError>, current: int): (r: Result<nat, FieldError>)
  {
    if bits == 0 then Err(NegativeShift)
    else match arg
      case Distance(d) => SignedField(d, bits, ValueOutOfRange)
      case Target(_) =>
        if located.Err? then Err(located.error)
        else if located.value.None? then Ok(0)
        else SignedField(located.value.value - current - 1, bits, JumpTargetTooFar)
  }

  /** A jump to a located target lands on it: the target is the word after
   * the jump plus the field read as a signed number, and the jump is
   * refused exactly when that distance does not fit. */
  lemma JumpLandsOnTarget(arg: JumpArg, bits: nat, target: int, current: int)
    requires arg.Target? && bits > 0
    ensures var r := ParseJ(arg, bits, Ok(Some(target)), current);
      (r.Ok? <==> -(Pow2(bits - 1) as int) <= target - current - 1 < Pow2(bits - 1)) &&
      (r.Ok? ==> r.value < Pow2(bits) && current + 1 + Signed(r.value, bits) == target) &&
      (r.Err? ==> r.error == JumpTargetTooFar)
  {
    SignedFieldKeeps(target - current - 1, bits, JumpTargetTooFar);
  }

  /** A numeric distance is stored as is, as a signed field. */
  lemma JumpDistanceKept(d: int, bits: nat, located: Result<Option<int>, FieldError>, current: int)
    requires bits > 0
    ensures var r := ParseJ(Distance(d), bits, located, current);
      (r.Ok? <==> -(Pow2(bits - 1) as int) <= d < Pow2(bits - 1)) &&
      (r.Ok? ==> Signed(r.value, bits) == d) &&
      (r.Err? ==> r.error == ValueOutOfRange)
  {
    SignedFieldKeeps(d, bits, ValueOutOfRange);
  }

  // ------------------------------------------------- encoding validation

  predicate IsLower(c: char)
  {
    'a' <= c <= 'z'
  }

  /** Characters of an encoding that are not arguments. */
  predicate IsFixed(c: char)
  {
    c == ' ' || c == '0' || c == '1' || c == '_'
  }

  /** The distinct characters of `s` in the order of their first
   * occurrence, as an ordered counter's keys. */
  function FirstOccurrences(s: string): (cs: string)
    ensures forall c :: c in cs <==> c in s
  {
    if s == [] then []
    else
      var cs := FirstOccurrences(s[..|s| - 1]);
      assert forall c :: c in s <==> c in s[..|s| - 1] || c == s[|s| - 1] by {
        assert s == s[..|s| - 1] + [s[|s| - 1]];
      }
      if s[|s| - 1] in cs then cs else cs + [s[|s| - 1]]
  }

  lemma {:induction false} FirstOccurrencesDistinct(s: string)
    ensures forall i, j :: 0 <= i < j < |FirstOccurrences(s)| ==> FirstOccurrences(s)[i] != FirstOccurrences(s)[j]
  {
    if s != [] {
      FirstOccurrencesDistinct(s[..|s| - 1]);
    }
  }

  /** The argument characters of an encoding, in order of first use. */
  function ArgChars(encoding: string): (cs: string)
    ensures forall c :: c in cs <==> c in encoding && !IsFixed(c)
  {
    Filter(FirstOccurrences(encoding))
  }

  function Filter(cs: string): (r: string)
    ensures forall c :: c in r <==> c in cs && !IsFixed(c)
    ensures |r| <= |cs|
  {
    if cs == [] then []
    else (if IsFixed(cs[0]) then [] else [cs[0]]) + Filter(cs[1..])
  }

  /** The index of the first character that is not a lowercase letter. */
  function FirstNonLower(cs: string): (k: nat)
    ensures k <= |cs| && forall i :: 0 <= i < k ==> IsLower(cs[i])
    ensures k < |cs| ==> !IsLower(cs[k])
  {
    if cs == [] || !IsLower(cs[0]) then 0 else 1 + FirstNonLower(cs[1..])
  }

  function NonSpaceCount(s: string): (n: nat)
  {
    |s| - multiset(s)[' ']
  }

  /** The checks `_generate` makes of one encoding: the characters other
   * than spaces make whole bytes, and every argument character is a
   * lowercase letter (the first offending one, in order of first use, is
   * reported). The result is each argument with its width, the number of
   * times it occurs. */
  function ArgFields(encoding: string): (r: Result<seq<(char, nat)>, FieldError>)
  {
    if NonSpaceCount(encoding) % 8 != 0 then Err(NonIntegerBytes)
    else
      var args := ArgChars(encoding);
      var k := FirstNonLower(args);
      if k < |args| then Err(UnexpectedCharacter(args[k]))
      else Ok(seq(|args|, i requires 0 <= i < |args| => (args[i], multiset(encoding)[args[i]])))
  }

  /** An encoding passes exactly when it makes whole bytes and uses only
   * lowercase letters as arguments; then the fields are those letters, one
   * each, each as wide as its number of occurrences. */
  lemma ArgFieldsValid(encoding: string)
    ensures ArgFields(encoding).Ok? <==>
      NonSpaceCount(encoding) % 8 == 0 &&
      forall i :: 0 <= i < |encoding| && !IsFixed(encoding[i]) ==> IsLower(encoding[i])
    ensures ArgFields(encoding).Ok? ==>
      var fields := ArgFields(encoding).value;
      (forall c :: (exists i :: 0 <= i < |fields| && fields[i].0 == c) <==> c in encoding && !IsFixed(c)) &&
      (forall i :: 0 <= i < |fields| ==> IsLower(fields[i].0) && fields[i].1 == multiset(encoding)[fields[i].0]) &&
      (forall i, j :: 0 <= i < j < |fields| ==> fields[i].0 != fields[j].0)
  {
    var args := ArgChars(encoding);
    FirstOccurrencesDistinct(encoding);
    FilterDistinct(FirstOccurrences(encoding));
    if NonSpaceCount(encoding) % 8 == 0 {
      var k := FirstNonLower(args);
      if k < |args| {
        assert args[k] in args;
        var i :| 0 <= i < |encoding| && encoding[i] == args[k];
      } else {
        forall i | 0 <= i < |encoding| && !IsFixed(encoding[i])
          ensures IsLower(encoding[i])
        {
          assert encoding[i] in args;
        }
        var fields := ArgFields(encoding).value;
        forall c | c in encoding && !IsFixed(c)
          ensures exists i :: 0 <= i < |fields| && fields[i].0 == c
        {
          assert c in args;
          var i :| 0 <= i < |args| && args[i] == c;
          assert fields[i].0 == c;
        }
      }
    }
  }

  lemma {:induction false} FilterDistinct(cs: string)
    requires forall i, j :: 0 <= i < j < |cs| ==> cs[i] != cs[j]
    ensures forall i, j :: 0 <= i < j < |Filter(cs)| ==> Filter(cs)[i] != Filter(cs)[j]
  {
    if cs != [] {
      FilterDistinct(cs[1..]);
      assert cs[0] !in cs[1..];
    }
  }
}
