/** Small naming and sizing rules of the code generators (`build.rs` of the
 * toolchain and of the disassembler): the Rust variant name of a mnemonic,
 * the Rust type of an argument, and the width of the intermediate integer
 * an immediate is parsed into. */
module Generators {
  import opened Arith
  import InstructionSet
  import DecimalText

  // ---------------------------------------------------------- CamelCase

  /** `char::to_uppercase` restricted to ASCII: a lowercase ASCII letter
   * becomes its capital and every other character is kept. Rust's function
   * also maps non-ASCII lowercase letters (and some to several
   * characters); instruction names are ASCII, so that is not modelled. */
  function Upper(c: char): (u: char)
    ensures 'a' <= c <= 'z' ==> u as int == c as int - 32
    ensures !('a' <= c <= 'z') ==> u == c
  {
    if 'a' <= c <= 'z' then (c as int - 32) as char else c
  }

  /** The `at_boundary` flag after reading a prefix: set at the start and
   * after each `_`. */
  predicate AtBoundary(prefix: string)
  {
    |prefix| == 0 || prefix[|prefix| - 1] == '_'
  }

  /** `mnemonic_to_cammel_case`: every `_` is dropped and the first
   * character after the start or after an `_` is uppercased. */
  function CamelCase(s: string): string
  {
    if s == [] then []
    else
      var init, c := s[..|s| - 1], s[|s| - 1];
      if c == '_' then CamelCase(init)
      else CamelCase(init) + [if AtBoundary(init) then Upper(c) else c]
  }

  /** The loop of `mnemonic_to_cammel_case`. */
  method CamelCaseLoop(s: string) returns (ret: string)
    ensures ret == CamelCase(s)
  {
    ret := [];
    var atBoundary := true;
    var i := 0;
    while i < |s|
      invariant 0 <= i <= |s|
      invariant ret == CamelCase(s[..i]) && atBoundary == AtBoundary(s[..i])
    {
      var c := s[i];
      assert s[..i + 1][..i] == s[..i];
      if c == '_' {
        atBoundary := true;
      } else if atBoundary {
        atBoundary := false;
        ret := ret + [Upper(c)];
      } else {
        ret := ret + [c];
      }
      i := i + 1;
    }
    assert s[..i] == s;
  }

  /** The words between the underscores, as `split('_')` gives them. */
  function Words(s: string): (ws: seq<string>)
    ensures |ws| >= 1
  {
    if s == [] then [[]]
    else
      var init, c := s[..|s| - 1], s[|s| - 1];
      var ws := Words(init);
      if c == '_' then ws + [[]]
      else ws[..|ws| - 1] + [ws[|ws| - 1] + [c]]
  }

  /** A word with its first character uppercased. */
  function Capitalize(w: string): string
  {
    if w == [] then [] else [Upper(w[0])] + w[1..]
  }

  /** The capitalised words, concatenated. */
  function JoinCapitalized(ws: seq<string>): string
  {
    if ws == [] then [] else JoinCapitalized(ws[..|ws| - 1]) + Capitalize(ws[|ws| - 1])
  }

  /** The last word of a prefix is empty exactly at a boundary. */
  lemma {:induction false} LastWordEmpty(s: string)
    ensures Words(s)[|Words(s)| - 1] == [] <==> AtBoundary(s)
  {
    if s != [] {
      var init, c := s[..|s| - 1], s[|s| - 1];
      if c != '_' {
        var ws := Words(init);
        assert Words(s)[|Words(s)| - 1] == ws[|ws| - 1] + [c];
      }
    }
  }

  lemma JoinCapitalizedSnoc(ws: seq<string>, w: string)
    ensures JoinCapitalized(ws + [w]) == JoinCapitalized(ws) + Capitalize(w)
  {
    assert (ws + [w])[..|ws|] == ws;
  }

  lemma CapitalizeSnoc(w: string, c: char)
    ensures Capitalize(w + [c]) == if w == [] then [Upper(c)] else Capitalize(w) + [c]
  {
    if w != [] {
      assert (w + [c])[1..] == w[1..] + [c];
    }
  }

  /** The variant name is the mnemonic's words, each capitalised, run
   * together: `ld_cr` becomes `LdCr`. */
  lemma {:induction false} CamelCaseWords(s: string)
    ensures CamelCase(s) == JoinCapitalized(Words(s))
  {
    if s != [] {
      var init, c := s[..|s| - 1], s[|s| - 1];
      CamelCaseWords(init);
      if c == '_' {
        UnderscoreStep(s, init);
      } else {
        LetterStep(s, init, c);
      }
    }
  }

  lemma UnderscoreStep(s: string, init: string)
    requires s != [] && init == s[..|s| - 1] && s[|s| - 1] == '_'
    requires CamelCase(init) == JoinCapitalized(Words(init))
    ensures CamelCase(s) == JoinCapitalized(Words(s))
  {
    assert Words(s) == Words(init) + [[]];
    JoinCapitalizedSnoc(Words(init), []);
  }

  lemma LetterStep(s: string, init: string, c: char)
    requires s != [] && init == s[..|s| - 1] && c == s[|s| - 1] && c != '_'
    requires CamelCase(init) == JoinCapitalized(Words(init))
    ensures CamelCase(s) == JoinCapitalized(Words(s))
  {
    var ws := Words(init);
    var n := |ws|;
    var front, last := ws[..n - 1], ws[n - 1];
    WordsLetter(s, init, c);
    CamelCaseLetter(s, init, c);
    assert front + [last] == ws;
    LastWordEmpty(init);
    JoinLetter(front, last, c, AtBoundary(init));
  }

  lemma WordsLetter(s: string, init: string, c: char)
    requires s != [] && init == s[..|s| - 1] && c == s[|s| - 1] && c != '_'
    ensures Words(s) == Words(init)[..|Words(init)| - 1] + [Words(init)[|Words(init)| - 1] + [c]]
  {
  }

  lemma CamelCaseLetter(s: string, init: string, c: char)
    requires s != [] && init == s[..|s| - 1] && c == s[|s| - 1] && c != '_'
    ensures CamelCase(s) == CamelCase(init) + [if AtBoundary(init) then Upper(c) else c]
  {
  }

  /** Appending a letter to the last word appends it, capitalised when the
   * word was empty, to the joined text. */
  lemma JoinLetter(front: seq<string>, last: string, c: char, boundary: bool)
    requires last == [] <==> boundary
    ensures JoinCapitalized(front + [last + [c]]) ==
      JoinCapitalized(front + [last]) + [if boundary then Upper(c) else c]
  {
    JoinCapitalizedSnoc(front, last);
    JoinCapitalizedSnoc(front, last + [c]);
    CapitalizeSnoc(last, c);
  }

  /** The characters of `s` other than `_`. */
  function Strip(s: string): string
  {
    if s == [] then [] else Strip(s[..|s| - 1]) + (if s[|s| - 1] == '_' then [] else [s[|s| - 1]])
  }

  /** The variant name keeps every other character, in order, changing at
   * most its case, and contains no `_`. */
  lemma {:induction false} CamelCaseShape(s: string)
    ensures |CamelCase(s)| == |Strip(s)|
    ensures forall i :: 0 <= i < |Strip(s)| ==>
      CamelCase(s)[i] == Strip(s)[i] || CamelCase(s)[i] == Upper(Strip(s)[i])
    ensures forall i :: 0 <= i < |CamelCase(s)| ==> CamelCase(s)[i] != '_'
  {
    if s != [] {
      CamelCaseShape(s[..|s| - 1]);
    }
  }

  lemma CamelCaseExamples()
    ensures CamelCase("ld_cr") == "LdCr"
    ensures CamelCase("add") == "Add"
    ensures CamelCase("_x__y_") == "XY"
  {
    CamelCaseLdCr();
    CamelCaseAdd();
    CamelCaseUnderscores();
  }

  lemma CamelCaseLdCr()
    ensures CamelCase("ld_cr") == "LdCr"
  {
    assert CamelCase("l") == "L";
    assert "ld"[..1] == "l";
    assert CamelCase("ld") == "Ld";
    assert "ld_"[..2] == "ld";
    assert CamelCase("ld_") == "Ld";
    assert "ld_c"[..3] == "ld_";
    assert CamelCase("ld_c") == "LdC";
    assert "ld_cr"[..4] == "ld_c";
  }

  lemma CamelCaseAdd()
    ensures CamelCase("add") == "Add"
  {
    assert CamelCase("a") == "A";
    assert "ad"[..1] == "a";
    assert CamelCase("ad") == "Ad";
    assert "add"[..2] == "ad";
  }

  lemma CamelCaseUnderscores()
    ensures CamelCase("_x__y_") == "XY"
  {
    assert CamelCase("_") == "";
    assert "_x"[..1] == "_";
    assert CamelCase("_x") == "X";
    assert "_x_"[..2] == "_x";
    assert "_x__"[..3] == "_x_";
    assert CamelCase("_x__") == "X";
    assert "_x__y"[..4] == "_x__";
    assert CamelCase("_x__y") == "XY";
    assert "_x__y_"[..5] == "_x__y";
  }

  // ------------------------------------------------------------ arg types

  /** `arg_type_to_rust`: the Rust type the generated code declares for an
   * argument. */
  function ArgTypeToRust(t: InstructionSet.ArgType): (s: string)
    ensures |s| >= 2
    ensures t.Immediate? ==> s[0] == (if t.signed then 'i' else 'u') && DecimalText.AllDigits(s[1..])
  {
    match t
    case Gpr => "Gpr"
    case ControlRegister => "ControlRegister"
    case Immediate(signed, bits) => (if signed then "i" else "u") + DecimalText.DecString(bits)
  }

  /** Different argument types get different Rust types. */
  lemma ArgTypeToRustInjective(a: InstructionSet.ArgType, b: InstructionSet.ArgType)
    requires ArgTypeToRust(a) == ArgTypeToRust(b)
    ensures a == b
  {
    if a.Immediate? && b.Immediate? {
      assert ArgTypeToRust(a)[1..] == DecimalText.DecString(a.bits);
      assert ArgTypeToRust(b)[1..] == DecimalText.DecString(b.bits);
      DecimalText.DecStringValue(a.bits);
      DecimalText.DecStringValue(b.bits);
    }
  }

  // ----------------------------------------------------- intermediate width

  /** The exponent of the smallest power of two at or above `n`. */
  function CeilLog2(n: nat): nat
    decreases n
  {
    if n <= 1 then 0 else 1 + CeilLog2((n + 1) / 2)
  }

  /** `usize::next_power_of_two`: the smallest power of two at or above
   * `n`, which is 1 for 0. */
  function NextPowerOfTwo(n: nat): nat
  {
    Pow2(CeilLog2(n))
  }

  lemma {:induction false} CeilLog2Bounds(n: nat)
    ensures Pow2(CeilLog2(n)) >= n
    ensures n >= 2 ==> CeilLog2(n) >= 1 && Pow2(CeilLog2(n) - 1) < n
    decreases n
  {
    if n >= 2 {
      var m := (n + 1) / 2;
      CeilLog2Bounds(m);
      assert Pow2(CeilLog2(n)) == 2 * Pow2(CeilLog2(m));
    }
  }

  /** The result is a power of two, at least `n`, and no smaller power of
   * two is at least `n`. */
  lemma NextPowerOfTwoLeast(n: nat, k: nat)
    ensures NextPowerOfTwo(n) >= n
    ensures Pow2(k) >= n ==> NextPowerOfTwo(n) <= Pow2(k)
  {
    CeilLog2Bounds(n);
    if Pow2(k) >= n && k < CeilLog2(n) {
      Pow2Monotone(k, CeilLog2(n) - 1);
    }
    if k >= CeilLog2(n) {
      Pow2Monotone(CeilLog2(n), k);
    }
  }

  /** The integer width `generate_opcode_parse_match_arm` parses an
   * immediate of `bits` bits into before narrowing it:
   * `((bits + 7) / 8).next_power_of_two() * 8`. */
  function IntermediateBits(bits: nat): (w: nat)
  {
    NextPowerOfTwo((bits + 7) / 8) * 8
  }

  /** The width is a power-of-two number of bytes, holds the immediate, and
   * is the narrowest such width. */
  lemma IntermediateBitsLeast(bits: nat, k: nat)
    ensures IntermediateBits(bits) == 8 * Pow2(CeilLog2((bits + 7) / 8))
    ensures IntermediateBits(bits) >= bits
    ensures 8 * Pow2(k) >= bits ==> IntermediateBits(bits) <= 8 * Pow2(k)
  {
    var bytes := (bits + 7) / 8;
    NextPowerOfTwoLeast(bytes, k);
    if 8 * Pow2(k) >= bits {
      assert Pow2(k) >= bytes;
    }
  }

  lemma IntermediateBitsExamples()
    ensures IntermediateBits(0) == 8 && IntermediateBits(4) == 8 && IntermediateBits(8) == 8
    ensures IntermediateBits(9) == 16 && IntermediateBits(16) == 16
    ensures IntermediateBits(17) == 32 && IntermediateBits(25) == 32
  {
    assert CeilLog2(2) == 1;
    assert CeilLog2(3) == 2 && CeilLog2(4) == 2;
  }
}
