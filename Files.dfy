/** Source locations of the Rust assembler: a location is a byte range in one
 * input file, a token slice remembers the file its tokens came from, and a
 * file's line-start table answers which line a byte is on and which bytes a
 * line covers. */
module Files {
  import opened Wrappers

  /** A byte range `start..end` in the file `fileId`. */
  datatype Location = Location(start: nat, end: nat, fileId: nat)

  /** The byte range a lexer token was matched from. */
  datatype Span = Span(start: nat, end: nat)

  predicate IsEmpty(l: Location)
  {
    l.start == l.end
  }

  /** The two `assert`s of `extend_to`: the same file, and (when neither is
   * empty) the first starts no later than the second ends. */
  predicate CanExtend(a: Location, b: Location)
  {
    a.fileId == b.fileId && (IsEmpty(a) || IsEmpty(b) || a.start <= b.end)
  }

  /** `Location::extend_to`: an empty side gives way to the other; otherwise
   * the range from the start of the first to the end of the second. */
  function ExtendTo(a: Location, b: Location): (r: Location)
    requires CanExtend(a, b)
    ensures r.fileId == a.fileId
    ensures IsEmpty(a) ==> r == b
    ensures !IsEmpty(a) && IsEmpty(b) ==> r == a
    ensures !IsEmpty(a) && !IsEmpty(b) ==> r.start == a.start && r.end == b.end
  {
    if IsEmpty(a) then b
    else if IsEmpty(b) then a
    else Location(a.start, b.end, a.fileId)
  }

  /** Well-formed ranges: start no later than end. */
  predicate Ordered(l: Location)
  {
    l.start <= l.end
  }

  /** The empty location is a neutral element on either side, and joining
   * two ordered, non-empty, ordered-between-them ranges covers both. */
  lemma ExtendToLaws(a: Location, b: Location)
    requires a.fileId == b.fileId
    ensures ExtendTo(Location(0, 0, a.fileId), b) == b
    ensures !IsEmpty(a) ==> ExtendTo(a, Location(0, 0, a.fileId)) == a
    ensures Ordered(a) && Ordered(b) && !IsEmpty(a) && !IsEmpty(b) && a.end <= b.start ==>
      var r := ExtendTo(a, b);
      Ordered(r) && !IsEmpty(r) && r.start <= a.start && a.end <= r.end && r.start <= b.start && b.end <= r.end
  {
  }

  /** Joining is associative for non-empty ranges that follow each other. */
  lemma ExtendToAssociative(a: Location, b: Location, c: Location)
    requires a.fileId == b.fileId == c.fileId
    requires Ordered(a) && Ordered(b) && Ordered(c) && !IsEmpty(a) && !IsEmpty(b) && !IsEmpty(c)
    requires a.end <= b.start && b.end <= c.start
    ensures ExtendTo(ExtendTo(a, b), c) == ExtendTo(a, ExtendTo(b, c))
  {
  }

  /** `FileTokens`: the remaining tokens of one file, each with its span. */
  datatype FileTokens<T> = FileTokens(tokens: seq<(T, Span)>, fileId: nat)

  /** `FileTokens::first`: the first token with its span as a location in
   * the slice's file. */
  function First<T>(ft: FileTokens<T>): (r: Option<(T, Location)>)
    ensures r.None? <==> ft.tokens == []
    ensures r.Some? ==> r.value.0 == ft.tokens[0].0
    ensures r.Some? ==> r.value.1 == Location(ft.tokens[0].1.start, ft.tokens[0].1.end, ft.fileId)
  {
    if ft.tokens == [] then None
    else Some((ft.tokens[0].0, Location(ft.tokens[0].1.start, ft.tokens[0].1.end, ft.fileId)))
  }

  /** `FileTokens::rest`: exactly one token dropped (slicing `[1..]` panics
   * on an empty slice), the file kept. */
  function Rest<T>(ft: FileTokens<T>): (r: FileTokens<T>)
    requires ft.tokens != []
    ensures r.fileId == ft.fileId && |r.tokens| == |ft.tokens| - 1
    ensures forall i :: 0 <= i < |r.tokens| ==> r.tokens[i] == ft.tokens[i + 1]
  {
    FileTokens(ft.tokens[1..], ft.fileId)
  }

  /** `FileTokens::empty_location`: `0..0` in the slice's file. */
  function EmptyLocation<T>(ft: FileTokens<T>): (r: Location)
    ensures IsEmpty(r) && r.fileId == ft.fileId && r.start == 0
  {
    Location(0, 0, ft.fileId)
  }

  /** First and rest take a slice apart without losing anything. */
  lemma FirstRest<T>(ft: FileTokens<T>)
    requires ft.tokens != []
    ensures var f := First(ft).value;
      ft.tokens == [(f.0, Span(f.1.start, f.1.end))] + Rest(ft).tokens
  {
    assert ft.tokens == [ft.tokens[0]] + ft.tokens[1..];
  }

  // ------------------------------------------------------------ lines

  /** The line-start table a file is given: byte 0 first, strictly
   * increasing, and within the source. */
  predicate ValidLineStarts(starts: seq<nat>, sourceLength: nat)
  {
    && |starts| >= 1 && starts[0] == 0
    && (forall i, j :: 0 <= i < j < |starts| ==> starts[i] < starts[j])
    && (forall i :: 0 <= i < |starts| ==> starts[i] <= sourceLength)
  }

  /** How many line starts are at or before `byteIndex`. */
  function StartsUpTo(starts: seq<nat>, byteIndex: nat): (n: nat)
    ensures n <= |starts|
  {
    if starts == [] then 0
    else StartsUpTo(starts[..|starts| - 1], byteIndex) + (if starts[|starts| - 1] <= byteIndex then 1 else 0)
  }

  /** With increasing starts, the starts at or before a byte are a prefix of
   * the table. */
  lemma {:induction false} StartsUpToPrefix(starts: seq<nat>, byteIndex: nat)
    requires forall i, j :: 0 <= i < j < |starts| ==> starts[i] < starts[j]
    ensures var n := StartsUpTo(starts, byteIndex);
      (forall i :: 0 <= i < n ==> starts[i] <= byteIndex) && (forall i :: n <= i < |starts| ==> byteIndex < starts[i])
  {
    if starts != [] {
      var init := starts[..|starts| - 1];
      StartsUpToPrefix(init, byteIndex);
      var m := StartsUpTo(init, byteIndex);
      if m < |init| {
        assert byteIndex < init[m] && init[m] == starts[m] < starts[|starts| - 1];
      }
    }
  }

  /** `line_index`: the binary search finds the line whose start is the
   * last one at or before the byte (an exact hit is that line, a miss is the
   * line before the insertion point). */
  function LineIndex(starts: seq<nat>, sourceLength: nat, byteIndex: nat): (r: nat)
    requires ValidLineStarts(starts, sourceLength)
    ensures r < |starts| && starts[r] <= byteIndex
    ensures r + 1 < |starts| ==> byteIndex < starts[r + 1]
  {
    StartsUpToPrefix(starts, byteIndex);
    StartsUpTo(starts, byteIndex) - 1
  }

  /** The line a byte is on is the only one with that property. */
  lemma LineIndexUnique(starts: seq<nat>, sourceLength: nat, byteIndex: nat, i: nat)
    requires ValidLineStarts(starts, sourceLength)
    requires i < |starts| && starts[i] <= byteIndex && (i + 1 < |starts| ==> byteIndex < starts[i + 1])
    ensures LineIndex(starts, sourceLength, byteIndex) == i
  {
    var r := LineIndex(starts, sourceLength, byteIndex);
    if r < i {
      assert false;
    } else if r > i {
      assert false;
    }
  }

  datatype LineError = LineTooLarge(given: nat, max: nat)

  /** `line_range`: from the line's start to the next line's start, or to
   * the end of the source for the last line; a line past the table is
   * `LineTooLarge`, with the largest valid line. */
  function LineRange(starts: seq<nat>, sourceLength: nat, lineIndex: nat): (r: Result<(nat, nat), LineError>)
    requires ValidLineStarts(starts, sourceLength)
    ensures r.Err? <==> lineIndex >= |starts|
    ensures r.Err? ==> r.error == LineTooLarge(lineIndex, |starts| - 1)
    ensures r.Ok? ==> r.value.0 == starts[lineIndex] <= r.value.1 <= sourceLength
    ensures r.Ok? ==> r.value.1 == if lineIndex + 1 < |starts| then starts[lineIndex + 1] else sourceLength
  {
    if lineIndex >= |starts| then Err(LineTooLarge(lineIndex, |starts| - 1))
    else
      var start := starts[lineIndex];
      var end := if lineIndex + 1 < |starts| then starts[lineIndex + 1] else sourceLength;
      Ok((start, end))
  }

  /** The line `line_index` finds for a byte of the source covers that
   * byte. */
  lemma LineOfByte(starts: seq<nat>, sourceLength: nat, byteIndex: nat)
    requires ValidLineStarts(starts, sourceLength) && byteIndex < sourceLength
    ensures var range := LineRange(starts, sourceLength, LineIndex(starts, sourceLength, byteIndex));
      range.Ok? && range.value.0 <= byteIndex < range.value.1
  {
  }
}
