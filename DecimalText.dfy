/** Decimal text of numbers, as Rust's `{}` formatting writes an unsigned
 * integer and as `str::parse::<u16>()` reads one back. Shared by the
 * register-name parsers. */
module DecimalText {
  import opened Wrappers

  predicate IsDigit(c: char) { '0' <= c <= '9' }

  function DigitValue(c: char): (d: nat)
    requires IsDigit(c)
    ensures d < 10
  {
    (c as int - '0' as int)
  }

  function DigitChar(d: nat): (c: char)
    requires d < 10
    ensures IsDigit(c) && DigitValue(c) == d
  {
    ('0' as int + d) as char
  }

  predicate AllDigits(s: string) { forall i :: 0 <= i < |s| ==> IsDigit(s[i]) }

  /** Value of a run of decimal digits, most significant first. */
  function DigitsValue(s: string): nat
    requires AllDigits(s)
  {
    if s == [] then 0 else DigitsValue(s[..|s| - 1]) * 10 + DigitValue(s[|s| - 1])
  }

  /** `format!("{}", n)`: shortest decimal text, no sign, no leading zero. */
  function DecString(n: nat): (s: string)
    ensures |s| > 0 && AllDigits(s)
    ensures |s| > 1 ==> s[0] != '0'
  {
    if n < 10 then [DigitChar(n)] else DecString(n / 10) + [DigitChar(n % 10)]
  }

  lemma {:induction false} DecStringValue(n: nat)
    ensures DigitsValue(DecString(n)) == n
  {
    if n >= 10 {
      var s := DecString(n);
      assert s[..|s| - 1] == DecString(n / 10);
      DecStringValue(n / 10);
    }
  }

  /** `str::parse::<u16>()`: an optional `+`, then at least one decimal
   * digit (leading zeros allowed); a value above 65535 is an error. */
  function ParseU16(s: string): (r: Option<nat>)
    ensures r.Some? ==> r.value < 0x1_0000
    ensures r.Some? ==> |s| > 0 && (IsDigit(s[0]) || s[0] == '+')
  {
    var digits := if |s| > 0 && s[0] == '+' then s[1..] else s;
    if |digits| == 0 || !AllDigits(digits) then None
    else if DigitsValue(digits) < 0x1_0000 then Some(DigitsValue(digits))
    else None
  }

  lemma ParseU16DecString(n: nat)
    requires n < 0x1_0000
    ensures ParseU16(DecString(n)) == Some(n)
  {
    DecStringValue(n);
  }

  lemma ParseU16RejectsNonDigit(s: string, i: nat)
    requires i < |s| && !IsDigit(s[i]) && !(i == 0 && s[i] == '+')
    ensures ParseU16(s) == None
  {
  }

  const UsizeLimit: nat := 0x1_0000_0000_0000_0000

  /** `str::parse::<usize>()` on a 64-bit target: the same text rules as
   * `ParseU16`, with values below 2^64. */
  function ParseUsize(s: string): (r: Option<nat>)
    ensures r.Some? ==> r.value < UsizeLimit
    ensures r.Some? ==> |s| > 0 && (IsDigit(s[0]) || s[0] == '+')
  {
    var digits := if |s| > 0 && s[0] == '+' then s[1..] else s;
    if |digits| == 0 || !AllDigits(digits) then None
    else if DigitsValue(digits) < UsizeLimit then Some(DigitsValue(digits))
    else None
  }

  lemma ParseUsizeDecString(n: nat)
    requires n < UsizeLimit
    ensures ParseUsize(DecString(n)) == Some(n)
  {
    DecStringValue(n);
  }
}
