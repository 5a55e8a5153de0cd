/** The C assembler's tokenizer (`assembler/tokenizer.c`): it skips blanks
 * and `#` comments, turns a line end or `;` into an end-of-line token,
 * `:` and `,` into single-character tokens, a maximal run of identifier
 * characters into an identifier, and anything else into an error token.
 * One token can be pushed back. The file is the whole input, read from a
 * position. */
module CTokenizer {
  import I32

  /** A byte of a string literal, as read from the file. */
  type Byte = x: int | 0 <= x < 0x100

  /** Compound operator tokens (`TOKEN_OPERATOR_*`). */
  datatype CompoundOp = OpEq | OpNeq | OpLe | OpGe | OpShl | OpShr | OpPower | OpLogicalAnd | OpLogicalOr

  /** A token by its type. Numbers, strings and operators are consumed by the
   * expression evaluator and the pseudo-instructions; this tokenizer never
   * produces them. */
  datatype Token =
    | NoToken                    // TOKEN_NONE: the lookahead slot is empty
    | ErrorToken
    | EofToken
    | EolToken
    | Identifier(text: string)
    | Number(value: I32.i32)
    | Str(bytes: seq<Byte>)
    | Char(c: char)              // a single-character token: its type is the character
    | Operator(op: CompoundOp)

  /** The token at position `i` of a token stream: the consumers peek at
   * the stream this way, and past its end there is only end of file. */
  function At(toks: seq<Token>, i: nat): (t: Token)
    ensures i < |toks| ==> t == toks[i]
    ensures i >= |toks| ==> t == EofToken
  {
    if i < |toks| then toks[i] else EofToken
  }

  /** `isalpha` in the C locale. */
  predicate IsAlpha(c: char) { 'a' <= c <= 'z' || 'A' <= c <= 'Z' }

  predicate IsDigit(c: char) { '0' <= c <= '9' }

  /** `isspace` in the C locale. */
  predicate IsSpace(c: char)
  {
    c == ' ' || c == '\t' || c == '\n' || c == '\r' || c == '\U{b}' || c == '\U{c}'
  }

  predicate IsIdentifierFirst(c: char) { c == '.' || c == '_' || c == '?' || IsAlpha(c) }

  predicate IsIdentifierChar(c: char) { IsIdentifierFirst(c) || IsDigit(c) }

  /** Whitespace other than a line end. */
  predicate IsSkippable(c: char) { c != '\n' && IsSpace(c) }

  /** Where a comment whose text starts at `i` stops: at the next line end,
   * which is not part of it, or at the end of the input. */
  function CommentEnd(s: string, i: nat): (j: nat)
    requires i <= |s|
    ensures i <= j <= |s|
    ensures j == |s| || s[j] == '\n'
    ensures forall k :: i <= k < j ==> s[k] != '\n'
    decreases |s| - i
  {
    if i == |s| || s[i] == '\n' then i else CommentEnd(s, i + 1)
  }

  /** The position of the next significant character, after blanks and
   * comments. */
  function Skip(s: string, i: nat): (j: nat)
    requires i <= |s|
    ensures i <= j <= |s|
    ensures j < |s| ==> s[j] != '#' && !IsSkippable(s[j])
    decreases |s| - i
  {
    if i == |s| then i
    else if s[i] == '#' then Skip(s, CommentEnd(s, i + 1))
    else if IsSkippable(s[i]) then Skip(s, i + 1)
    else i
  }

  /** The end of the run of identifier characters starting at `i`. */
  function IdentifierEnd(s: string, i: nat): (j: nat)
    requires i <= |s|
    ensures i <= j <= |s|
    ensures forall k :: i <= k < j ==> IsIdentifierChar(s[k])
    ensures j == |s| || !IsIdentifierChar(s[j])
    decreases |s| - i
  {
    if i == |s| || !IsIdentifierChar(s[i]) then i else IdentifierEnd(s, i + 1)
  }

  /** `load_token`: the next token after position `i` and the position
   * after it. An identifier is the maximal run of identifier characters
   * after the blanks, and the character that ends it is left unread. */
  function NextToken(s: string, i: nat): (r: (Token, nat))
    requires i <= |s|
    ensures i <= r.1 <= |s|
    ensures r.0 != EofToken ==> r.1 > i
  {
    var j := Skip(s, i);
    if j == |s| then (EofToken, j)
    else if s[j] == '\n' || s[j] == ';' then (EolToken, j + 1)
    else if s[j] == ':' || s[j] == ',' then (Char(s[j]), j + 1)
    else if IsIdentifierFirst(s[j]) then
      var k := IdentifierEnd(s, j + 1);
      (Identifier(s[j..k]), k)
    else (ErrorToken, j + 1)
  }

  /** An identifier is the maximal run of identifier characters after the
   * blanks, and the character that ends it is left unread. */
  lemma NextTokenIdentifier(s: string, i: nat)
    requires i <= |s| && NextToken(s, i).0.Identifier?
    ensures var (t, j) := NextToken(s, i);
      |t.text| >= 1 && IsIdentifierFirst(t.text[0]) && t.text == s[Skip(s, i)..j] &&
      (forall k :: 0 <= k < |t.text| ==> IsIdentifierChar(t.text[k])) &&
      (j == |s| || !IsIdentifierChar(s[j]))
  {
  }

  /** The end of file comes exactly when only blanks and comments are left;
   * an end of line comes exactly from a line end or a `;`; and the only
   * other tokens are `:`, `,`, identifiers and errors. */
  lemma NextTokenKinds(s: string, i: nat)
    requires i <= |s|
    ensures var t := NextToken(s, i).0;
      (t == EofToken <==> Skip(s, i) == |s|) &&
      (t == EolToken <==> Skip(s, i) < |s| && (s[Skip(s, i)] == '\n' || s[Skip(s, i)] == ';')) &&
      (t.Char? ==> t.c == ':' || t.c == ',') &&
      (t.ErrorToken? || t.EofToken? || t.EolToken? || t.Char? || t.Identifier?)
  {
  }

  /** The tokens of the input from position `i`, up to and including the
   * end of file. */
  function TokenList(s: string, i: nat): seq<Token>
    requires i <= |s|
    decreases |s| - i
  {
    var (t, j) := NextToken(s, i);
    if t == EofToken then [EofToken] else [t] + TokenList(s, j)
  }

  /** The stream ends with the end of file and has no other end of file,
   * and it never contains an empty slot. */
  lemma {:induction false} TokenListEnds(s: string, i: nat)
    requires i <= |s|
    ensures var ts := TokenList(s, i);
      |ts| >= 1 && ts[|ts| - 1] == EofToken &&
      forall k :: 0 <= k < |ts| - 1 ==> ts[k] != EofToken && ts[k] != NoToken
    decreases |s| - i
  {
    var (t, j) := NextToken(s, i);
    if t != EofToken {
      TokenListEnds(s, j);
      NextTokenKinds(s, i);
    }
  }

  /** The blank- and comment-skipping loop of `load_token`. */
  method SkipBlanks(s: string, start: nat) returns (i: nat)
    requires start <= |s|
    ensures i == Skip(s, start)
  {
    i := start;
    while i < |s| && (s[i] == '#' || IsSkippable(s[i]))
      invariant start <= i <= |s|
      invariant Skip(s, i) == Skip(s, start)
      decreases |s| - i
    {
      if s[i] == '#' {
        // The comment runs up to the line end, which is left for the next
        // token.
        i := i + 1;
        while i < |s| && s[i] != '\n'
          invariant start < i <= |s|
          invariant Skip(s, CommentEnd(s, i)) == Skip(s, start)
          decreases |s| - i
        {
          i := i + 1;
        }
        continue;
      }
      while i < |s| && IsSkippable(s[i])
        invariant start <= i <= |s|
        invariant Skip(s, i) == Skip(s, start)
        decreases |s| - i
      {
        i := i + 1;
      }
    }
  }

  /** The identifier loop of `load_token`: the characters are copied into
   * the buffer until one is not an identifier character. */
  method ScanIdentifier(s: string, first: nat) returns (buffer: string, i: nat)
    requires first < |s| && IsIdentifierFirst(s[first])
    ensures i == IdentifierEnd(s, first + 1) && buffer == s[first..i]
  {
    buffer := [s[first]];
    i := first + 1;
    while i < |s| && IsIdentifierChar(s[i])
      invariant first < i <= |s| && buffer == s[first..i]
      invariant IdentifierEnd(s, first + 1) == IdentifierEnd(s, i)
      decreases |s| - i
    {
      buffer := buffer + [s[i]];
      i := i + 1;
    }
  }

  /** `struct tokenizer_state`: the input, how far it has been read, and
   * the one-token lookahead slot. */
  class Tokenizer {
    var input: string
    var pos: nat
    var slot: Token

    predicate Valid()
      reads this
    {
      pos <= |input|
    }

    /** `tokenizer_open`: nothing read, the slot empty. */
    constructor (input: string)
      ensures Valid() && this.input == input && pos == 0 && slot == NoToken
    {
      this.input := input;
      pos := 0;
      slot := NoToken;
    }

    /** `load_token`: fill the slot from the input. */
    method LoadToken()
      requires Valid()
      modifies this
      ensures Valid() && input == old(input)
      ensures (slot, pos) == NextToken(input, old(pos))
    {
      var i := SkipBlanks(input, pos);
      if i == |input| {
        slot := EofToken;
        pos := i;
      } else if input[i] == '\n' || input[i] == ';' {
        slot := EolToken;
        pos := i + 1;
      } else if input[i] == ':' || input[i] == ',' {
        slot := Char(input[i]);
        pos := i + 1;
      } else if IsIdentifierFirst(input[i]) {
        var text, end := ScanIdentifier(input, i);
        // The character after the identifier is pushed back.
        slot := Identifier(text);
        pos := end;
      } else {
        slot := ErrorToken;
        pos := i + 1;
      }
    }

    /** `get_token`: the pushed-back token if there is one, otherwise the
     * next token of the input; the slot is empty afterwards. */
    method Get() returns (t: Token)
      requires Valid()
      modifies this
      ensures Valid() && input == old(input) && slot == NoToken
      ensures old(slot) != NoToken ==> t == old(slot) && pos == old(pos)
      ensures old(slot) == NoToken ==> (t, pos) == NextToken(input, old(pos))
      ensures t != NoToken
    {
      if slot == NoToken {
        LoadToken();
      }
      t := slot;
      slot := NoToken;
    }

    /** `unget_token`: the slot must be empty; the next `Get` returns `t`. */
    method Unget(t: Token)
      requires Valid() && slot == NoToken
      modifies this
      ensures Valid() && input == old(input) && pos == old(pos) && slot == t
    {
      slot := t;
    }
  }

  /** Reading until the end of file yields exactly the stream. */
  method ReadAll(input: string) returns (ts: seq<Token>)
    ensures ts == TokenList(input, 0)
  {
    var tokenizer := new Tokenizer(input);
    ts := [];
    while true
      invariant tokenizer.Valid() && tokenizer.input == input && tokenizer.slot == NoToken
      invariant ts + TokenList(input, tokenizer.pos) == TokenList(input, 0)
      decreases |input| - tokenizer.pos
    {
      ghost var before := tokenizer.pos;
      var t := tokenizer.Get();
      TokenListStep(input, ts, before, t, tokenizer.pos);
      ts := ts + [t];
      if t == EofToken {
        return;
      }
    }
  }

  /** One step of the stream: the token read is the next one of the list. */
  lemma TokenListStep(s: string, done: seq<Token>, i: nat, t: Token, j: nat)
    requires i <= |s| && NextToken(s, i) == (t, j)
    requires done + TokenList(s, i) == TokenList(s, 0)
    ensures t == EofToken ==> done + [t] == TokenList(s, 0)
    ensures t != EofToken ==> (done + [t]) + TokenList(s, j) == TokenList(s, 0)
  {
    if t != EofToken {
      assert TokenList(s, i) == [t] + TokenList(s, j);
    }
  }

  // ------------------------------------------------------- round trip

  /** An identifier as the tokenizer reads it. */
  predicate ValidIdentifier(w: string)
  {
    |w| >= 1 && IsIdentifierFirst(w[0]) && forall k :: 0 <= k < |w| ==> IsIdentifierChar(w[k])
  }

  /** Words, each followed by one space. */
  function Spaced(ws: seq<string>): string
  {
    if ws == [] then [] else ws[0] + " " + Spaced(ws[1..])
  }

  function Identifiers(ws: seq<string>): seq<Token>
  {
    if ws == [] then [] else [Identifier(ws[0])] + Identifiers(ws[1..])
  }

  lemma {:induction false} IdentifierEndAt(s: string, i: nat, end: nat)
    requires i <= end < |s|
    requires forall k :: i <= k < end ==> IsIdentifierChar(s[k])
    requires !IsIdentifierChar(s[end])
    ensures IdentifierEnd(s, i) == end
    decreases end - i
  {
    if i < end {
      IdentifierEndAt(s, i + 1, end);
    }
  }

  /** Blanks before a token do not change it. */
  lemma TokenListSkip(s: string, i: nat)
    requires i < |s| && IsSkippable(s[i])
    ensures TokenList(s, i) == TokenList(s, i + 1)
  {
    assert Skip(s, i) == Skip(s, i + 1);
  }

  /** An identifier followed by a space is read as itself. */
  lemma NextTokenWord(s: string, i: nat, w: string)
    requires ValidIdentifier(w) && i + |w| < |s| && s[i..i + |w|] == w && s[i + |w|] == ' '
    ensures NextToken(s, i) == (Identifier(w), i + |w|)
  {
    var end := i + |w|;
    assert s[i] == w[0];
    forall k | i + 1 <= k < end
      ensures IsIdentifierChar(s[k])
    {
      assert s[k] == w[k - i];
    }
    IdentifierEndAt(s, i + 1, end);
    assert Skip(s, i) == i;
  }

  /** A word and the space after it contribute one identifier token. */
  lemma TokenListWord(s: string, i: nat, w: string)
    requires ValidIdentifier(w) && i + |w| < |s| && s[i..i + |w|] == w && s[i + |w|] == ' '
    ensures TokenList(s, i) == [Identifier(w)] + TokenList(s, i + |w| + 1)
  {
    NextTokenWord(s, i, w);
    TokenListSkip(s, i + |w|);
  }

  /** Where the first word, its space and the remaining words lie. */
  lemma SpacedSplit(s: string, i: nat, ws: seq<string>)
    requires ws != [] && i + |Spaced(ws)| <= |s| && s[i..i + |Spaced(ws)|] == Spaced(ws)
    ensures var end := i + |ws[0]|;
      end < |s| && s[i..end] == ws[0] && s[end] == ' ' &&
      end + 1 + |Spaced(ws[1..])| == i + |Spaced(ws)| &&
      s[end + 1..end + 1 + |Spaced(ws[1..])|] == Spaced(ws[1..])
  {
    var w, rest := ws[0], Spaced(ws[1..]);
    var end := i + |w|;
    var line := s[i..i + |Spaced(ws)|];
    assert line == w + " " + rest;
    assert line[..|w|] == w && line[|w|] == ' ' && line[|w| + 1..] == rest;
    assert s[i..end] == line[..|w|];
    assert s[end] == line[|w|];
    assert s[end + 1..end + 1 + |rest|] == line[|w| + 1..];
  }

  /** The inductive step of `SpacedTokens`. */
  lemma SpacedStep(s: string, i: nat, w: string, mid: nat, end: nat, ids: seq<Token>)
    requires ValidIdentifier(w) && i + |w| < |s| && s[i..i + |w|] == w && s[i + |w|] == ' '
    requires mid == i + |w| + 1 && mid <= end <= |s|
    requires TokenList(s, mid) == ids + TokenList(s, end)
    ensures TokenList(s, i) == [Identifier(w)] + ids + TokenList(s, end)
  {
    TokenListWord(s, i, w);
  }

  /** Space-separated identifiers are read back as those identifiers, in
   * order. */
  lemma {:induction false} SpacedTokens(s: string, i: nat, ws: seq<string>, end: nat)
    requires forall k :: 0 <= k < |ws| ==> ValidIdentifier(ws[k])
    requires end == i + |Spaced(ws)| && end <= |s| && s[i..end] == Spaced(ws)
    ensures TokenList(s, i) == Identifiers(ws) + TokenList(s, end)
    decreases |ws|
  {
    if ws != [] {
      var mid := i + |ws[0]| + 1;
      SpacedSplit(s, i, ws);
      SpacedTokens(s, mid, ws[1..], end);
      SpacedStep(s, i, ws[0], mid, end, Identifiers(ws[1..]));
    }
  }

  /** A final line end gives an end of line, then the end of file. */
  lemma FinalNewline(s: string, n: nat)
    requires n + 1 == |s| && s[n] == '\n'
    ensures TokenList(s, n) == [EolToken, EofToken]
  {
    assert NextToken(s, n) == (EolToken, n + 1);
    assert NextToken(s, n + 1) == (EofToken, n + 1);
  }

  /** A line of space-separated identifiers tokenizes to those identifiers,
   * an end of line and the end of file. */
  lemma LineTokens(ws: seq<string>)
    requires forall k :: 0 <= k < |ws| ==> ValidIdentifier(ws[k])
    ensures TokenList(Spaced(ws) + "\n", 0) == Identifiers(ws) + [EolToken, EofToken]
  {
    var s := Spaced(ws) + "\n";
    var n := |Spaced(ws)|;
    assert s[0..n] == Spaced(ws);
    SpacedTokens(s, 0, ws, n);
    FinalNewline(s, n);
  }

  /** A comment is skipped up to its line end, and a `;` also ends a
   * statement. */
  lemma CommentExample()
    ensures TokenList("a # b\n;", 0) == [Identifier("a"), EolToken, EolToken, EofToken]
  {
    var s := "a # b\n;";
    assert s[0..1] == "a";
    NextTokenWord(s, 0, "a");
    assert CommentEnd(s, 3) == 5 by {
      assert CommentEnd(s, 5) == 5;
      assert CommentEnd(s, 4) == 5;
    }
    assert Skip(s, 2) == 5;
    assert Skip(s, 1) == 5;
    assert NextToken(s, 1) == (EolToken, 6);
    assert NextToken(s, 6) == (EolToken, 7);
    assert NextToken(s, 7) == (EofToken, 7);
  }
}
