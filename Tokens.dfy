/** The tokens the Rust assembler's parsers consume, and the shape of a
 * lexed token slice: every token covers a non-empty byte range and the
 * ranges follow each other through the file. */
module Tokens {
  import opened Wrappers
  import opened Files
  import I32

  /** The lexer's token kinds. `Not`, `BitNot`, `BitXor` and `Percent` are
   * used by both expression parsers although the lexer's enum as shipped
   * does not list them; `Str` is the `String` token. */
  datatype Token =
    | Identifier(name: string)
    | Number(n: I32.i32)
    | Str(text: string)
    | Colon | Comma | LParen | RParen | LBrace | RBrace
    | Lt | Gt | Eq | Neq | Le | Ge
    | Plus | Minus | Asterisk | Slash | Percent
    | Shl | Shr | Pow
    | LogicalAnd | LogicalOr | BitAnd | BitOr | BitXor
    | Not | BitNot
    | Semicolon | Eol | Error

  type Tokens = FileTokens<Token>

  /** Token spans as the lexer produces them: non-empty, in file order,
   * not overlapping. */
  predicate WellFormed(ft: Tokens)
  {
    && (forall i :: 0 <= i < |ft.tokens| ==> ft.tokens[i].1.start < ft.tokens[i].1.end)
    && (forall i, j :: 0 <= i < j < |ft.tokens| ==> ft.tokens[i].1.end <= ft.tokens[j].1.start)
  }

  /** The location covering tokens `from` up to (not including) `to`. */
  function Cover(ft: Tokens, from: nat, to: nat): (l: Location)
    requires WellFormed(ft) && from < to <= |ft.tokens|
    ensures Ordered(l) && !IsEmpty(l) && l.fileId == ft.fileId
  {
    assert to - 1 > from ==> ft.tokens[from].1.end <= ft.tokens[to - 1].1.start;
    Location(ft.tokens[from].1.start, ft.tokens[to - 1].1.end, ft.fileId)
  }

  /** Position `pos` of `ft` as the slice `FileTokens::rest` reaches from
   * `ft` after `pos` calls. */
  function Slice(ft: Tokens, pos: nat): (r: Tokens)
    requires pos <= |ft.tokens|
    ensures r.fileId == ft.fileId && |r.tokens| == |ft.tokens| - pos
  {
    FileTokens(ft.tokens[pos..], ft.fileId)
  }

  /** Stepping a position is `rest` on the slice. */
  lemma SliceRest(ft: Tokens, pos: nat)
    requires pos < |ft.tokens|
    ensures Rest(Slice(ft, pos)) == Slice(ft, pos + 1)
    ensures First(Slice(ft, pos)) == Some((ft.tokens[pos].0, Location(ft.tokens[pos].1.start, ft.tokens[pos].1.end, ft.fileId)))
  {
    assert ft.tokens[pos..][1..] == ft.tokens[pos + 1..];
  }

  /** Tokens laid out one per two bytes, as a stand-in for a lexed line. */
  function Lay(ts: seq<Token>): (ft: Tokens)
    ensures WellFormed(ft) && |ft.tokens| == |ts| && ft.fileId == 0
    ensures forall i :: 0 <= i < |ts| ==> ft.tokens[i] == (ts[i], Span(2 * i, 2 * i + 1))
  {
    FileTokens(seq(|ts|, i requires 0 <= i < |ts| => (ts[i], Span(2 * i, 2 * i + 1))), 0)
  }
}
