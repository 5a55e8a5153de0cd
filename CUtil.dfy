/** Small helpers of the C programs (`assembler/util.c`, `common/util.c`):
 * the value of a hexadecimal digit, the overlap test of two half-open
 * intervals, and string duplication. The two `parse_digit` copies are the
 * same code. */
module CUtil {

  predicate IsHexDigit(c: char)
  {
    '0' <= c <= '9' || 'a' <= c <= 'f' || 'A' <= c <= 'F'
  }

  /** `parse_digit`: the value of a decimal or hexadecimal digit of either
   * case, and -1 for any other character. */
  function ParseDigit(c: char): (d: int)
    ensures -1 <= d <= 15
    ensures d == -1 <==> !IsHexDigit(c)
    ensures '0' <= c <= '9' ==> d == c as int - '0' as int
  {
    if '0' <= c <= '9' then c as int - '0' as int
    else if 'a' <= c <= 'f' then c as int - 'a' as int + 10
    else if 'A' <= c <= 'F' then c as int - 'A' as int + 10
    else -1
  }

  /** The digit character for `d`, in lower or upper case. */
  function DigitChar(d: nat, upper: bool): (c: char)
    requires d < 16
  {
    if d < 10 then ('0' as int + d) as char
    else if upper then ('A' as int + d - 10) as char
    else ('a' as int + d - 10) as char
  }

  /** Every digit, written in either case, reads back as itself. */
  lemma ParseDigitChar(d: nat, upper: bool)
    requires d < 16
    ensures ParseDigit(DigitChar(d, upper)) == d
  {
  }

  /** A digit character is the character of its value, in one case or the
   * other: no two digit characters of the same case share a value. */
  lemma ParseDigitOnto(c: char)
    requires IsHexDigit(c)
    ensures c == DigitChar(ParseDigit(c), false) || c == DigitChar(ParseDigit(c), true)
  {
  }

  /** `intervals_overlap` on the half-open intervals `[start1, end1)` and
   * `[start2, end2)`, as written: each starts before the other ends. An
   * empty interval inside the other one passes this test. */
  predicate IntervalsOverlapAsWritten(start1: nat, end1: nat, start2: nat, end2: nat)
  {
    start1 < end2 && start2 < end1
  }

  /** The overlap test as intended: both intervals are non-empty and each
   * starts before the other ends. */
  predicate IntervalsOverlap(start1: nat, end1: nat, start2: nat, end2: nat)
  {
    start1 < end1 && start2 < end2 && start1 < end2 && start2 < end1
  }

  predicate InBoth(x: nat, start1: nat, end1: nat, start2: nat, end2: nat)
  {
    start1 <= x < end1 && start2 <= x < end2
  }

  /** The intended test is exactly whether some point lies in both
   * intervals; it is symmetric, and an empty interval overlaps nothing. */
  lemma OverlapMeansCommonPoint(start1: nat, end1: nat, start2: nat, end2: nat)
    ensures IntervalsOverlap(start1, end1, start2, end2) <==>
      exists x: nat :: InBoth(x, start1, end1, start2, end2)
    ensures IntervalsOverlap(start1, end1, start2, end2) == IntervalsOverlap(start2, end2, start1, end1)
    ensures end1 <= start1 || end2 <= start2 ==> !IntervalsOverlap(start1, end1, start2, end2)
  {
    if IntervalsOverlap(start1, end1, start2, end2) {
      var x := if start1 < start2 then start2 else start1;
      assert InBoth(x, start1, end1, start2, end2);
    }
  }

  /** As written the test is symmetric and agrees with the intended one on
   * non-empty intervals, but it finds the empty interval `[5, 5)` inside
   * `[0, 10)`. */
  lemma OverlapAsWritten(start1: nat, end1: nat, start2: nat, end2: nat)
    ensures IntervalsOverlapAsWritten(start1, end1, start2, end2) == IntervalsOverlapAsWritten(start2, end2, start1, end1)
    ensures start1 < end1 && start2 < end2 ==>
      (IntervalsOverlapAsWritten(start1, end1, start2, end2) <==> IntervalsOverlap(start1, end1, start2, end2))
    ensures IntervalsOverlapAsWritten(5, 5, 0, 10) && !IntervalsOverlap(5, 5, 0, 10)
  {
  }

  /** `strdup_with_msg`: a fresh buffer holding the string and its
   * terminating zero (`strlen(s) + 1` characters), copied one by one. */
  method StrDup(s: string) returns (copy: array<char>)
    requires forall k :: 0 <= k < |s| ==> s[k] != '\0'
    ensures fresh(copy)
    ensures copy[..] == s + ['\0']
  {
    copy := new char[|s| + 1];
    var i := 0;
    while i < |s|
      invariant 0 <= i <= |s|
      invariant copy[..i] == s[..i]
    {
      copy[i] := s[i];
      i := i + 1;
    }
    copy[|s|] := '\0';
    assert copy[..|s|] == s;
  }
}
