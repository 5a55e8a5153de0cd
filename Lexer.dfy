/** Literal decoding of the assembler's lexer: numbers in bases 2, 8, 10 and
 * 16 with `_` separators, folded into an `i32` with overflow detection, and
 * the escape sequences of string literals.
 *
 * The token regular expressions themselves belong to the lexer generator;
 * the model starts from the slice a regular expression has matched. */
module Lexer {
  import opened Wrappers

  const I32Max: nat := 0x7fff_ffff

  // ------------------------------------------------------------- numbers

  /** `char::to_digit(base)`: decimal digits, then letters of either case
   * for 10 to 35, accepted below `base`. */
  function ToDigit(c: char, base: nat): (r: Option<nat>)
    requires 2 <= base <= 36
    ensures r.Some? ==> r.value < base
    ensures '0' <= c <= '9' && (c as int - '0' as int) < base ==> r == Some(c as int - '0' as int)
    ensures 'a' <= c <= 'z' && (c as int - 'a' as int + 10) < base ==> r == Some(c as int - 'a' as int + 10)
    ensures 'A' <= c <= 'Z' && (c as int - 'A' as int + 10) < base ==> r == Some(c as int - 'A' as int + 10)
    ensures c == '_' ==> r.None?
  {
    var v :=
      if '0' <= c <= '9' then c as int - '0' as int
      else if 'a' <= c <= 'z' then c as int - 'a' as int + 10
      else if 'A' <= c <= 'Z' then c as int - 'A' as int + 10
      else 36;
    if v < base then Some(v) else None
  }

  datatype NumOutcome = Returns(value: Option<int>) | Panics

  /** The `try_fold` of `parse_num` from the accumulator `acc`: underscores
   * are skipped, a character that is not a digit panics (`unwrap`), and the
   * fold stops with `None` as soon as `acc * base` or `+ digit` leaves the
   * `i32` range (the digit is never negative, so the two checks together
   * are `acc * base + digit > i32::MAX`). */
  function FoldDigits(s: string, base: nat, acc: nat): (r: NumOutcome)
    requires 2 <= base <= 36 && acc <= I32Max
    ensures r.Returns? && r.value.Some? ==> acc <= r.value.value <= I32Max
    decreases |s|
  {
    if s == [] then Returns(Some(acc))
    else if s[0] == '_' then FoldDigits(s[1..], base, acc)
    else match ToDigit(s[0], base)
      case None => Panics
      case Some(d) =>
        MulGrows(acc, base);
        if acc * base + d > I32Max then Returns(None)
        else FoldDigits(s[1..], base, acc * base + d)
  }

  /** `parse_num(s, base)`. */
  function ParseNum(s: string, base: nat): (r: NumOutcome)
    requires 2 <= base <= 36
    ensures r.Returns? && r.value.Some? ==> 0 <= r.value.value <= I32Max
  {
    FoldDigits(s, base, 0)
  }

  /** Every character is `_` or a digit of the base. */
  predicate AllDigits(s: string, base: nat)
    requires 2 <= base <= 36
  {
    forall i :: 0 <= i < |s| ==> s[i] == '_' || ToDigit(s[i], base).Some?
  }

  /** The digit values of `s`, underscores dropped. */
  function Digits(s: string, base: nat): (ds: seq<nat>)
    requires 2 <= base <= 36 && AllDigits(s, base)
    ensures forall i :: 0 <= i < |ds| ==> ds[i] < base
  {
    if s == [] then []
    else if s[0] == '_' then Digits(s[1..], base)
    else [ToDigit(s[0], base).value] + Digits(s[1..], base)
  }

  /** Positional value of digits, most significant first, continuing from
   * `acc`. */
  function ValueFrom(acc: nat, ds: seq<nat>, base: nat): (v: nat)
    requires base >= 2
    ensures v >= acc
    decreases |ds|
  {
    if ds == [] then acc
    else
      MulGrows(acc, base);
      ValueFrom(acc * base + ds[0], ds[1..], base)
  }

  lemma MulGrows(acc: nat, base: nat)
    requires base >= 1
    ensures acc * base >= acc
  {
  }

  function Value(ds: seq<nat>, base: nat): nat
    requires base >= 2
  {
    ValueFrom(0, ds, base)
  }

  /** The fold computes the positional value, or `None` exactly when that
   * value exceeds `i32::MAX`. */
  lemma {:induction false} FoldDigitsValue(s: string, base: nat, acc: nat)
    requires 2 <= base <= 36 && acc <= I32Max && AllDigits(s, base)
    ensures ValueFrom(acc, Digits(s, base), base) <= I32Max ==>
      FoldDigits(s, base, acc) == Returns(Some(ValueFrom(acc, Digits(s, base), base)))
    ensures ValueFrom(acc, Digits(s, base), base) > I32Max ==> FoldDigits(s, base, acc) == Returns(None)
  {
    if s != [] {
      AllDigitsTail(s, base);
      if s[0] == '_' {
        FoldDigitsValue(s[1..], base, acc);
      } else {
        var d := ToDigit(s[0], base).value;
        var next: nat := acc * base + d;
        assert Digits(s, base) == [d] + Digits(s[1..], base);
        ValueFromCons(acc, d, Digits(s[1..], base), base, next);
        if next <= I32Max {
          FoldDigitsValue(s[1..], base, next);
        }
      }
    }
  }

  lemma ValueFromCons(acc: nat, d: nat, ds: seq<nat>, base: nat, next: nat)
    requires base >= 2 && next == acc * base + d
    ensures ValueFrom(acc, [d] + ds, base) == ValueFrom(next, ds, base) >= next
  {
    assert ([d] + ds)[1..] == ds;
  }

  lemma AllDigitsTail(s: string, base: nat)
    requires 2 <= base <= 36 && s != [] && AllDigits(s, base)
    ensures AllDigits(s[1..], base)
  {
    forall i | 0 <= i < |s| - 1 ensures s[1..][i] == '_' || ToDigit(s[1..][i], base).Some? {
      assert s[1..][i] == s[i + 1];
    }
  }

  /** `parse_num` on a well-formed literal: its value when that fits `i32`,
   * `None` when it does not. */
  lemma ParseNumValue(s: string, base: nat)
    requires 2 <= base <= 36 && AllDigits(s, base)
    ensures Value(Digits(s, base), base) <= I32Max ==> ParseNum(s, base) == Returns(Some(Value(Digits(s, base), base)))
    ensures Value(Digits(s, base), base) > I32Max ==> ParseNum(s, base) == Returns(None)
  {
    FoldDigitsValue(s, base, 0);
  }

  /** Two runs of digits of a base, one after the other. */
  lemma BelowConcat(a: seq<nat>, b: seq<nat>, base: nat)
    requires forall i :: 0 <= i < |a| ==> a[i] < base
    requires forall i :: 0 <= i < |b| ==> b[i] < base
    ensures forall i :: 0 <= i < |a + b| ==> (a + b)[i] < base
  {
    forall i | 0 <= i < |a + b|
      ensures (a + b)[i] < base
    {
      if i >= |a| {
        assert (a + b)[i] == b[i - |a|];
      }
    }
  }

  /** `ParseNumValue` for a literal whose digits and value are known. */
  lemma ParseNumOf(s: string, base: nat, ds: seq<nat>, v: nat)
    requires 2 <= base <= 36 && AllDigits(s, base) && Digits(s, base) == ds && Value(ds, base) == v && v <= I32Max
    ensures ParseNum(s, base) == Returns(Some(v))
  {
    ParseNumValue(s, base);
  }

  /** A panic can only come from a character that is neither `_` nor a
   * digit. */
  lemma {:induction false} FoldPanicsOnlyOnBadCharacter(s: string, base: nat, acc: nat)
    requires 2 <= base <= 36 && acc <= I32Max
    ensures FoldDigits(s, base, acc).Panics? ==> !AllDigits(s, base)
  {
    if s != [] && s[0] != '_' && ToDigit(s[0], base).Some? {
      var d := ToDigit(s[0], base).value;
      if acc * base + d <= I32Max {
        FoldPanicsOnlyOnBadCharacter(s[1..], base, acc * base + d);
        if FoldDigits(s, base, acc).Panics? {
          var i :| 0 <= i < |s[1..]| && !(s[1..][i] == '_' || ToDigit(s[1..][i], base).Some?);
          assert s[1..][i] == s[i + 1];
        }
      }
    } else if s != [] && s[0] == '_' {
      FoldPanicsOnlyOnBadCharacter(s[1..], base, acc);
      if FoldDigits(s, base, acc).Panics? {
        var i :| 0 <= i < |s[1..]| && !(s[1..][i] == '_' || ToDigit(s[1..][i], base).Some?);
        assert s[1..][i] == s[i + 1];
      }
    }
  }

  // ------------------------------------------------ the literal round trip

  /** The digits of `v`, most significant first; `0` is the single digit 0. */
  function ToDigits(v: nat, base: nat): (ds: seq<nat>)
    requires base >= 2
    ensures |ds| >= 1 && forall i :: 0 <= i < |ds| ==> ds[i] < base
    decreases v
  {
    if v < base then [v] else ToDigits(v / base, base) + [v % base]
  }

  lemma {:induction false} ValueFromSnoc(acc: nat, ds: seq<nat>, d: nat, base: nat)
    requires base >= 2
    ensures ValueFrom(acc, ds + [d], base) == ValueFrom(acc, ds, base) * base + d
    decreases |ds|
  {
    if ds != [] {
      assert (ds + [d])[1..] == ds[1..] + [d];
      ValueFromSnoc(acc * base + ds[0], ds[1..], d, base);
    }
  }

  lemma {:induction false} ValueOfToDigits(v: nat, base: nat)
    requires base >= 2
    ensures Value(ToDigits(v, base), base) == v
    decreases v
  {
    if v < base {
      assert ToDigits(v, base) == [v];
      SingleDigit(v, base);
    } else {
      var q, r := v / base, v % base;
      var ds := ToDigits(q, base);
      assert ToDigits(v, base) == ds + [r];
      assert Value(ds, base) == q by {
        DivShrinks(v, base);
        ValueOfToDigits(q, base);
      }
      assert Value(ds + [r], base) == Value(ds, base) * base + r by {
        ValueFromSnoc(0, ds, r, base);
      }
      assert Value(ds, base) * base == q * base;
      assert q * base + r == v by {
        DivMod(v, base);
      }
    }
  }

  lemma SingleDigit(d: nat, base: nat)
    requires base >= 2
    ensures Value([d], base) == d
  {
    assert [d][1..] == [];
    assert ValueFrom(0, [d], base) == ValueFrom(0 * base + d, [], base);
    assert 0 * base + d == d;
  }

  lemma DivShrinks(v: nat, base: nat)
    requires base >= 2
    ensures v / base <= v && (v >= 1 ==> v / base < v)
  {
    var q := v / base;
    DivMod(v, base);
    assert q * base >= q * 2 by {
      assert q * base == q * 2 + q * (base - 2);
    }
  }

  lemma DivMod(v: nat, base: nat)
    requires base >= 2
    ensures (v / base) * base + v % base == v
  {
  }

  function Zeros(n: nat): (z: seq<nat>)
    ensures |z| == n && forall i :: 0 <= i < n ==> z[i] == 0
  {
    if n == 0 then [] else [0] + Zeros(n - 1)
  }

  lemma {:induction false} LeadingZeros(n: nat, ds: seq<nat>, base: nat)
    requires base >= 2
    ensures Value(Zeros(n) + ds, base) == Value(ds, base)
  {
    if n > 0 {
      var z := Zeros(n) + ds;
      assert z[0] == 0 && z[1..] == Zeros(n - 1) + ds;
      assert ValueFrom(0, z, base) == ValueFrom(0 * base + 0, z[1..], base);
      assert 0 * base + 0 == 0;
      LeadingZeros(n - 1, ds, base);
    } else {
      assert Zeros(n) + ds == ds;
    }
  }

  /** A digit written as a character, lower or upper case. */
  function DigitChar(d: nat, upper: bool): (c: char)
    requires d < 36
  {
    if d < 10 then ('0' as int + d) as char
    else if upper then ('A' as int + d - 10) as char
    else ('a' as int + d - 10) as char
  }

  lemma DigitCharValue(d: nat, upper: bool, base: nat)
    requires 2 <= base <= 36 && d < base
    ensures ToDigit(DigitChar(d, upper), base) == Some(d)
  {
  }

  function Underscores(n: nat): (u: string)
    ensures |u| == n && forall i :: 0 <= i < n ==> u[i] == '_'
  {
    if n == 0 then [] else "_" + Underscores(n - 1)
  }

  /** Digits written out with a case choice and a run of underscores after
   * each, the shape of literal the lexer's property test generates. */
  function Render(ds: seq<nat>, caps: seq<bool>, pads: seq<nat>, base: nat): (s: string)
    requires 2 <= base <= 36 && |caps| == |ds| && |pads| == |ds|
    requires forall i :: 0 <= i < |ds| ==> ds[i] < base
  {
    if ds == [] then []
    else [DigitChar(ds[0], caps[0])] + Underscores(pads[0]) + Render(ds[1..], caps[1..], pads[1..], base)
  }

  lemma {:induction false} DigitsOfUnderscores(n: nat, rest: string, base: nat)
    requires 2 <= base <= 36 && AllDigits(rest, base)
    ensures AllDigits(Underscores(n) + rest, base)
    ensures Digits(Underscores(n) + rest, base) == Digits(rest, base)
  {
    var s := Underscores(n) + rest;
    assert forall i :: 0 <= i < |s| ==> s[i] == (if i < n then '_' else rest[i - n]);
    if n > 0 {
      assert s[0] == '_' && s[1..] == Underscores(n - 1) + rest;
      DigitsOfUnderscores(n - 1, rest, base);
    } else {
      assert s == rest;
    }
  }

  lemma {:induction false} DigitsOfRender(ds: seq<nat>, caps: seq<bool>, pads: seq<nat>, base: nat)
    requires 2 <= base <= 36 && |caps| == |ds| && |pads| == |ds|
    requires forall i :: 0 <= i < |ds| ==> ds[i] < base
    ensures AllDigits(Render(ds, caps, pads, base), base)
    ensures Digits(Render(ds, caps, pads, base), base) == ds
  {
    if ds != [] {
      var tail := Render(ds[1..], caps[1..], pads[1..], base);
      DigitsOfRender(ds[1..], caps[1..], pads[1..], base);
      DigitsOfUnderscores(pads[0], tail, base);
      var c := DigitChar(ds[0], caps[0]);
      DigitCharValue(ds[0], caps[0], base);
      RenderCons(ds, caps, pads, base);
      DigitCons(c, Underscores(pads[0]) + tail, base);
    }
  }

  lemma RenderCons(ds: seq<nat>, caps: seq<bool>, pads: seq<nat>, base: nat)
    requires 2 <= base <= 36 && |caps| == |ds| && |pads| == |ds| && ds != []
    requires forall i :: 0 <= i < |ds| ==> ds[i] < base
    ensures Render(ds, caps, pads, base) ==
      [DigitChar(ds[0], caps[0])] + (Underscores(pads[0]) + Render(ds[1..], caps[1..], pads[1..], base))
  {
  }

  /** A digit in front of a well-formed literal. */
  lemma DigitCons(c: char, rest: string, base: nat)
    requires 2 <= base <= 36 && ToDigit(c, base).Some? && c != '_' && AllDigits(rest, base)
    ensures AllDigits([c] + rest, base)
    ensures Digits([c] + rest, base) == [ToDigit(c, base).value] + Digits(rest, base)
  {
    var s := [c] + rest;
    assert s[1..] == rest;
    forall i | 0 <= i < |s| ensures s[i] == '_' || ToDigit(s[i], base).Some? {
      if i > 0 {
        assert s[i] == rest[i - 1];
      }
    }
  }

  /** The property test `test_num`: any value in `0..=i32::MAX`, written in
   * the base with leading zeros, any mix of cases and any `_` padding,
   * parses back to itself. */
  lemma NumLiteralRoundTrip(v: nat, base: nat, leading: nat, caps: seq<bool>, pads: seq<nat>)
    requires 2 <= base <= 36 && v <= I32Max
    requires |caps| == |pads| == leading + |ToDigits(v, base)|
    ensures ParseNum(Render(Zeros(leading) + ToDigits(v, base), caps, pads, base), base) == Returns(Some(v))
  {
    var ds := Zeros(leading) + ToDigits(v, base);
    BelowConcat(Zeros(leading), ToDigits(v, base), base);
    DigitsOfRender(ds, caps, pads, base);
    ValueOfToDigits(v, base);
    LeadingZeros(leading, ToDigits(v, base), base);
    ParseNumOf(Render(ds, caps, pads, base), base, ds, v);
  }

  /** Strip a two-character base prefix in either case; the regular
   * expression guarantees one is there, and `unwrap` panics otherwise. */
  function StripBasePrefix(slice: string, lower: char, upper: char): (r: Option<string>)
    ensures r.Some? <==> |slice| >= 2 && slice[0] == '0' && (slice[1] == lower || slice[1] == upper)
    ensures r.Some? ==> slice == slice[..2] + r.value
  {
    if |slice| >= 2 && slice[..2] == ['0', lower] then Some(slice[2..])
    else if |slice| >= 2 && slice[..2] == ['0', upper] then Some(slice[2..])
    else None
  }

  /** The `parse_bin`, `parse_oct`, `parse_hex` and `parse_dec` callbacks. */
  function ParsePrefixed(slice: string, lower: char, upper: char, base: nat): (r: NumOutcome)
    requires 2 <= base <= 36
    ensures StripBasePrefix(slice, lower, upper).None? ==> r.Panics?
    ensures StripBasePrefix(slice, lower, upper).Some? ==> r == ParseNum(StripBasePrefix(slice, lower, upper).value, base)
  {
    match StripBasePrefix(slice, lower, upper)
    case None => Panics
    case Some(digits) => ParseNum(digits, base)
  }

  function ParseBin(slice: string): NumOutcome { ParsePrefixed(slice, 'b', 'B', 2) }
  function ParseOct(slice: string): NumOutcome { ParsePrefixed(slice, 'o', 'O', 8) }
  function ParseHex(slice: string): NumOutcome { ParsePrefixed(slice, 'x', 'X', 16) }
  function ParseDec(slice: string): NumOutcome { ParseNum(slice, 10) }

  /** `test_num_example`: `0x1_23` is 0x123. */
  lemma HexExample()
    ensures ParseHex("0x1_23") == Returns(Some(0x123))
  {
    var s := "1_23";
    assert "0x1_23"[..2] == ['0', 'x'] && "0x1_23"[2..] == s;
    assert AllDigits(s, 16);
    assert s[1..] == "_23" && s[1..][1..] == "23" && "23"[1..] == "3" && "3"[1..] == [];
    assert Digits(s, 16) == [1, 2, 3];
    ParseNumValue(s, 16);
  }

  // ------------------------------------------------------------- strings

  /** A character that may appear unescaped inside a string literal. */
  predicate IsPlain(c: char)
  {
    !(c == '\\' || c == '"' || c < ' ' || c == '\U{7f}')
  }

  predicate IsHexDigit(c: char)
  {
    '0' <= c <= '9' || 'a' <= c <= 'f' || 'A' <= c <= 'F'
  }

  function HexValue(c: char): (v: nat)
    requires IsHexDigit(c)
    ensures v < 16
  {
    if '0' <= c <= '9' then c as int - '0' as int
    else if 'a' <= c <= 'f' then c as int - 'a' as int + 10
    else c as int - 'A' as int + 10
  }

  /** `u32::from_str_radix(s, 16)` for a run of hex digits. */
  function HexNumber(s: string): (v: nat)
    requires forall i :: 0 <= i < |s| ==> IsHexDigit(s[i])
    decreases |s|
  {
    if s == [] then 0 else HexNumber(s[..|s| - 1]) * 16 + HexValue(s[|s| - 1])
  }

  /** `char::from_u32`: a Unicode scalar value. */
  predicate IsScalar(v: nat)
  {
    v < 0xD800 || 0xE000 <= v < 0x11_0000
  }

  /** The string sub-tokens. */
  datatype StringToken =
    | Str(text: string)
    | EscQuote | EscBackslash | EscNewline | EscCr | EscTab | EscNull
    | EscUnicode(c: char)
    | Error

  /** The length of the run of plain characters at the start of `s`. */
  function PlainRun(s: string): (n: nat)
    ensures n <= |s| && (forall i :: 0 <= i < n ==> IsPlain(s[i])) && (n < |s| ==> !IsPlain(s[n]))
  {
    if s == [] || !IsPlain(s[0]) then 0 else 1 + PlainRun(s[1..])
  }

  /** The length of the run of hex digits at the start of `s`. */
  function HexRun(s: string): (n: nat)
    ensures n <= |s| && (forall i :: 0 <= i < n ==> IsHexDigit(s[i])) && (n < |s| ==> !IsHexDigit(s[n]))
  {
    if s == [] || !IsHexDigit(s[0]) then 0 else 1 + HexRun(s[1..])
  }

  /** `\u{` then one to six hex digits then `}`, with `parse_unicode_escape`
   * turning an invalid code point into an error token. Returns the token
   * and the number of characters it covers. */
  function UnicodeEscape(s: string): (r: (StringToken, nat))
    requires |s| >= 2 && s[..2] == "\\u"
    ensures 1 <= r.1 <= |s|
  {
    if |s| >= 3 && s[2] == '{' then
      var n := HexRun(s[3..]);
      if 1 <= n <= 6 && 3 + n < |s| && s[3 + n] == '}' then
        var v := HexNumber(s[3..3 + n]);
        if IsScalar(v) then (EscUnicode(v as char), 4 + n) else (Error, 4 + n)
      else (Error, 1)
    else (Error, 1)
  }

  /** One string sub-token at the start of a non-empty input. */
  function NextStringToken(s: string): (r: (StringToken, nat))
    requires s != []
    ensures 1 <= r.1 <= |s|
    ensures r.0.Str? ==> r.0.text == s[..r.1] && forall i :: 0 <= i < r.1 ==> IsPlain(s[i])
  {
    if IsPlain(s[0]) then
      var n := PlainRun(s);
      (Str(s[..n]), n)
    else if s[0] == '\\' && |s| >= 2 then
      if s[1] == '"' then (EscQuote, 2)
      else if s[1] == '\\' then (EscBackslash, 2)
      else if s[1] == 'n' then (EscNewline, 2)
      else if s[1] == 'r' then (EscCr, 2)
      else if s[1] == 't' then (EscTab, 2)
      else if s[1] == '0' then (EscNull, 2)
      else if s[1] == 'u' then UnicodeEscape(s)
      else (Error, 1)
    else (Error, 1)
  }

  /** `StringToken::append_to`: the text a sub-token stands for; an error
   * sub-token fails. */
  function TokenText(t: StringToken): (r: Option<string>)
    ensures r.None? <==> t.Error?
    ensures t.Str? ==> r == Some(t.text)
    ensures t.EscUnicode? ==> r == Some([t.c])
    ensures !t.Str? && !t.Error? ==> r.Some? && |r.value| == 1
  {
    match t
    case Str(text) => Some(text)
    case EscQuote => Some("\"")
    case EscBackslash => Some("\\")
    case EscNewline => Some("\n")
    case EscCr => Some("\r")
    case EscTab => Some("\t")
    case EscNull => Some("\0")
    case EscUnicode(c) => Some([c])
    case Error => None
  }

  /** The decoded contents of a string literal, sub-token by sub-token;
   * any error sub-token fails the whole literal. */
  function Decode(s: string): (r: Option<string>)
    decreases |s|
  {
    if s == [] then Some([])
    else
      var (t, n) := NextStringToken(s);
      Join(TokenText(t), Decode(s[n..]))
  }

  /** Both parts decoded, concatenated; a failure in either fails. */
  function Join(front: Option<string>, back: Option<string>): (r: Option<string>)
    ensures r.Some? <==> front.Some? && back.Some?
    ensures r.Some? ==> r.value == front.value + back.value
  {
    if front.Some? && back.Some? then Some(front.value + back.value) else None
  }

  /** One step of `Decode` on a non-empty input. */
  lemma DecodeStep(s: string)
    requires s != []
    ensures var (t, n) := NextStringToken(s); Decode(s) == Join(TokenText(t), Decode(s[n..]))
  {
  }

  /** `parse_string` on the characters between the quotes: the contents
   * themselves when they hold no escape (the borrowed case), otherwise the
   * decoded text built up sub-token by sub-token. */
  method ParseString(input: string) returns (r: Option<string>)
    ensures r == Decode(input)
  {
    if input == [] {
      return Some(input);
    }
    var (first, n) := NextStringToken(input);
    if first.Str? && n == |input| {
      DecodePlain(input);
      return Some(input);
    }
    r := DecodeOwned(input);
  }

  /** The owned case of `parse_string`: the decoded text built up
   * sub-token by sub-token. */
  method DecodeOwned(input: string) returns (r: Option<string>)
    ensures r == Decode(input)
  {
    ghost var whole := Decode(input);
    var ret: string := [];
    var i := 0;
    JoinNothing(whole);
    assert input[i..] == input;
    while i < |input|
      invariant 0 <= i <= |input|
      invariant whole == Join(Some(ret), Decode(input[i..]))
      decreases |input| - i
    {
      var ok;
      ok, ret, i := AppendNext(input, i, ret, whole);
      if !ok {
        return None;
      }
    }
    JoinEnd(whole, input[i..], ret);
    r := Some(ret);
  }

  lemma SliceTwice(s: string, i: nat, m: nat, k: nat)
    requires k == i + m <= |s|
    ensures s[i..][m..] == s[k..]
  {
  }

  /** One sub-token of the owned case: its text appended to `ret`, or the
   * failure of the whole literal. */
  method AppendNext(input: string, i: nat, ret: string, ghost whole: Option<string>) returns (ok: bool, ret': string, i': nat)
    requires i < |input| && whole == Join(Some(ret), Decode(input[i..]))
    ensures ok ==> i < i' <= |input| && whole == Join(Some(ret'), Decode(input[i'..]))
    ensures !ok ==> whole == None
  {
    var next := NextStringToken(input[i..]);
    var text, m := TokenText(next.0), next.1;
    if text.None? {
      DecodeFails(whole, input[i..], ret);
      return false, ret, i;
    }
    ret', i' := ret + text.value, i + m;
    DecodeAdvance(whole, input, i, ret, text.value, m, ret', i');
    ok := true;
  }

  lemma JoinNothing(x: Option<string>)
    ensures x == Join(Some([]), x)
  {
    if x.Some? {
      assert [] + x.value == x.value;
    }
  }

  /** An error sub-token fails the whole literal. */
  lemma DecodeFails(whole: Option<string>, rest: string, ret: string)
    requires rest != [] && TokenText(NextStringToken(rest).0).None?
    requires whole == Join(Some(ret), Decode(rest))
    ensures whole == None
  {
    DecodeStep(rest);
  }

  /** Nothing left to decode. */
  lemma JoinEnd(whole: Option<string>, rest: string, ret: string)
    requires rest == [] && whole == Join(Some(ret), Decode(rest))
    ensures whole == Some(ret)
  {
    assert ret + [] == ret;
  }


  /** One more sub-token of `parse_string`'s loop appended. */
  lemma DecodeAdvance(whole: Option<string>, input: string, i: nat, ret: string, text: string, m: nat, ret': string, i': nat)
    requires i < |input| && TokenText(NextStringToken(input[i..]).0) == Some(text) && m == NextStringToken(input[i..]).1
    requires whole == Join(Some(ret), Decode(input[i..]))
    requires ret' == ret + text && i' == i + m
    ensures i < i' <= |input| && whole == Join(Some(ret'), Decode(input[i'..]))
  {
    var rest := input[i..];
    SliceTwice(input, i, m, i');
    DecodeAfter(rest, Some(text), m, input[i'..]);
    JoinAssoc(ret, text, Decode(input[i'..]), ret');
  }

  lemma JoinAssoc(a: string, b: string, c: Option<string>, ab: string)
    requires ab == a + b
    ensures Join(Some(a), Join(Some(b), c)) == Join(Some(ab), c)
  {
    if c.Some? {
      assert a + (b + c.value) == (a + b) + c.value;
    }
  }


  /** A literal with no escape and only plain characters decodes to
   * itself. */
  lemma {:induction false} DecodePlain(s: string)
    requires forall i :: 0 <= i < |s| ==> IsPlain(s[i])
    ensures Decode(s) == Some(s)
  {
    if s != [] {
      var n := PlainRun(s);
      assert n == |s|;
      assert s[n..] == [] && s[..n] == s && s + [] == s;
    }
  }

  /** Lowercase hex digits of a number, as `format!("{:x}")` writes them. */
  function HexDigitChar(d: nat): (c: char)
    requires d < 16
    ensures IsHexDigit(c) && HexValue(c) == d
  {
    if d < 10 then ('0' as int + d) as char else ('a' as int + d - 10) as char
  }

  function ToHex(v: nat): (s: string)
    ensures |s| >= 1 && forall i :: 0 <= i < |s| ==> IsHexDigit(s[i])
    ensures HexNumber(s) == v
    decreases v
  {
    if v < 16 then [HexDigitChar(v)]
    else
      var init := ToHex(v / 16);
      assert (init + [HexDigitChar(v % 16)])[..|init|] == init;
      init + [HexDigitChar(v % 16)]
  }

  lemma {:induction false} ToHexLength(v: nat, bound: nat, digits: nat)
    requires v < bound && bound == Pow16(digits) && digits >= 1
    ensures |ToHex(v)| <= digits
    decreases digits
  {
    if v >= 16 {
      assert digits >= 2;
      assert v / 16 < Pow16(digits - 1);
      ToHexLength(v / 16, Pow16(digits - 1), digits - 1);
    }
  }

  /** A run of hex digits ends where a non-digit follows. */
  lemma HexRunStops(h: string, rest: string)
    requires forall i :: 0 <= i < |h| ==> IsHexDigit(h[i])
    requires rest != [] && !IsHexDigit(rest[0])
    ensures HexRun(h + rest) == |h|
  {
    var s := h + rest;
    assert forall i :: 0 <= i < |h| ==> s[i] == h[i];
    assert s[|h|] == rest[0];
  }

  function Pow16(n: nat): nat
  {
    if n == 0 then 1 else 16 * Pow16(n - 1)
  }

  /** `test_string_valid_unicode_escape`: every character written as
   * `\u{hex}` decodes back to itself. */
  lemma UnicodeEscapeRoundTrip(c: char)
    ensures Decode("\\u{" + ToHex(c as int) + "}") == Some([c])
  {
    var h := ToHex(c as int);
    assert Pow16(6) == 0x100_0000;
    ToHexLength(c as int, Pow16(6), 6);
    var tail := h + "}";
    var s := "\\u{" + tail;
    assert s == "\\u{" + h + "}";
    var n := |h|;
    assert s[0] == '\\' && s[1] == 'u' && s[2] == '{' && s[..2] == "\\u";
    assert s[3..] == tail;
    HexRunStops(h, "}");
    assert tail[..n] == h && tail[n] == '}';
    assert s[3..3 + n] == h && s[3 + n] == '}';
    assert IsScalar(c as int);
    assert UnicodeEscape(s) == (EscUnicode(c), 4 + n);
    assert NextStringToken(s) == (EscUnicode(c), 4 + n);
    DecodeStep(s);
    assert s[4 + n..] == [];
    assert [c] + [] == [c];
  }

  /** An escape at the start of the input that is not understood fails
   * the whole literal. */
  lemma DecodeError(s: string)
    requires s != [] && NextStringToken(s).0 == Error
    ensures Decode(s) == None
  {
    DecodeStep(s);
  }

  /** `test_string_invalid_escape`. */
  lemma InvalidEscape()
    ensures Decode("\\q") == None
  {
    DecodeError("\\q");
  }

  /** `test_string_invalid_unicode_escape_value`: the digits stop at `x`. */
  lemma InvalidUnicodeValue()
    ensures Decode("\\u{0x110000}") == None
  {
    var s := "\\u{0x110000}";
    assert s[..2] == "\\u" && s[3..] == "0" + "x110000}";
    HexRunStops("0", "x110000}");
    assert s[4] == 'x';
    assert UnicodeEscape(s).0 == Error;
    DecodeError(s);
  }

  /** `test_string_invalid_unicode_escape_syntax1`: a non-digit before the
   * closing brace. */
  lemma InvalidUnicodeSyntaxDigit()
    ensures Decode("\\u{aX}") == None
  {
    var s := "\\u{aX}";
    assert s[..2] == "\\u" && s[3..] == "a" + "X}";
    HexRunStops("a", "X}");
    assert s[4] == 'X';
    assert UnicodeEscape(s).0 == Error;
    DecodeError(s);
  }

  /** `test_string_invalid_unicode_escape_syntax2`: no closing brace. */
  lemma InvalidUnicodeSyntaxUnclosed()
    ensures Decode("\\u{20") == None
  {
    var s := "\\u{20";
    assert s[..2] == "\\u" && s[3..] == "20";
    assert HexRun("20") == 2 by {
      assert "20"[1..] == "0" && "0"[1..] == [];
    }
    assert UnicodeEscape(s).0 == Error;
    DecodeError(s);
  }

  /** `test_string_invalid_unicode_escape_syntax3`: no opening brace. */
  lemma InvalidUnicodeSyntaxNoBrace()
    ensures Decode("\\u20") == None
  {
    var s := "\\u20";
    assert s[..2] == "\\u";
    assert UnicodeEscape(s).0 == Error;
    DecodeError(s);
  }

  /** The character a simple escape `\e` stands for. */
  function EscapedChar(e: char): (c: char)
    requires e in "\"\\nrt0"
  {
    match e
    case '"' => '"'
    case '\\' => '\\'
    case 'n' => '\n'
    case 'r' => '\r'
    case 't' => '\t'
    case '0' => '\0'
  }

  /** `test_string_all_escapes`: each simple escape stands for its
   * character, whatever follows it. */
  lemma SimpleEscape(e: char, rest: string)
    requires e in "\"\\nrt0"
    ensures Decode(['\\', e] + rest) == Join(Some([EscapedChar(e)]), Decode(rest))
  {
    var s := ['\\', e] + rest;
    EscapeToken(e, s);
    assert s[2..] == rest;
    DecodeAfter(s, Some([EscapedChar(e)]), 2, rest);
  }

  /** A backslash and one of the simple escape letters form a two-character
   * sub-token standing for the escaped character. */
  lemma EscapeToken(e: char, s: string)
    requires e in "\"\\nrt0" && |s| >= 2 && s[0] == '\\' && s[1] == e
    ensures NextStringToken(s).1 == 2 && TokenText(NextStringToken(s).0) == Some([EscapedChar(e)])
  {
  }

  /** `Decode` past a first sub-token with the given text and length. */
  lemma DecodeAfter(s: string, text: Option<string>, n: nat, rest: string)
    requires s != [] && TokenText(NextStringToken(s).0) == text && NextStringToken(s).1 == n
    requires n <= |s| && s[n..] == rest
    ensures Decode(s) == Join(text, Decode(rest))
  {
    DecodeStep(s);
  }
}
