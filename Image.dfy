/** Loading a ROM image from Intel HEX records: collecting the data records
 * into byte segments (`load_ihex_segments`), and laying the segments out as
 * a sequence of big-endian 16-bit words with zero-filled gaps
 * (`convert_u8_segments` of the emulator toolchain, `Rom::from_segments` of
 * the standalone emulator).
 *
 * The records arrive already parsed; the text reader of the `ihex` crate is
 * not part of this model. */
module Image {
  import opened Wrappers
  import opened Arith

  type u8 = x: int | 0 <= x < 256
  type u16 = x: int | 0 <= x < 0x1_0000

  /** A run of bytes at a byte offset. */
  datatype U8Segment = U8Segment(offset: nat, data: seq<u8>)

  /** `U8Segment::end`: one past the last byte. */
  function End(s: U8Segment): nat
  {
    s.offset + |s.data|
  }

  /** `U8Segment::iter_u16`: consecutive byte pairs, high byte first. The
   * source asserts that the length is even. */
  function BigEndianWords(d: seq<u8>): (w: seq<u16>)
    requires |d| % 2 == 0
    ensures |w| == |d| / 2
  {
    if d == [] then [] else [(d[0] as int) * 256 + d[1]] + BigEndianWords(d[2..])
  }

  /** Word `j` is bytes `2 * j` (high) and `2 * j + 1` (low). */
  lemma {:induction false} BigEndianWordAt(d: seq<u8>, j: nat)
    requires |d| % 2 == 0 && j < |d| / 2
    ensures BigEndianWords(d)[j] == (d[2 * j] as int) * 256 + d[2 * j + 1]
  {
    if j > 0 {
      BigEndianWordAt(d[2..], j - 1);
      assert d[2..][2 * (j - 1)] == d[2 * j] && d[2..][2 * (j - 1) + 1] == d[2 * j + 1];
    }
  }

  /** The bytes of words, high byte first: the inverse of `BigEndianWords`. */
  function WordsToBytes(w: seq<u16>): (d: seq<u8>)
    ensures |d| == 2 * |w|
  {
    if w == [] then [] else [w[0] / 256, w[0] % 256] + WordsToBytes(w[1..])
  }

  lemma {:induction false} BigEndianRoundTrip(w: seq<u16>)
    ensures BigEndianWords(WordsToBytes(w)) == w
  {
    if w != [] {
      var d := WordsToBytes(w);
      assert d[2..] == WordsToBytes(w[1..]);
      BigEndianRoundTrip(w[1..]);
    }
  }

  /** `test_u8segment_iter_u16` and `test_u8segment_end`. */
  lemma {:induction false} SegmentExamples(d: seq<u8>)
    requires d == [0x01, 0x02, 0x03, 0x04, 0x05, 0x06]
    ensures BigEndianWords(d) == [0x0102, 0x0304, 0x0506]
    ensures End(U8Segment(123, [0])) == 124
  {
    var d1, d2 := d[2..], d[2..][2..];
    assert d1 == [0x03, 0x04, 0x05, 0x06] && d2 == [0x05, 0x06] && d2[2..] == [];
    assert BigEndianWords(d2) == [0x0506];
    assert BigEndianWords(d1) == [0x0304, 0x0506];
  }

  // ------------------------------------------------------------- layout

  /** Every segment has an even offset and an even length: what the loader
   * guarantees and what the word conversion asserts. */
  predicate AllEven(segs: seq<U8Segment>)
  {
    forall i :: 0 <= i < |segs| ==> segs[i].offset % 2 == 0 && |segs[i].data| % 2 == 0
  }

  /** Segment `j` starts before segment `j - 1` ends. */
  predicate OverlapAt(segs: seq<U8Segment>, j: nat)
    requires 1 <= j < |segs|
  {
    segs[j].offset < End(segs[j - 1])
  }

  /** Each segment starts at or after the end of the one before it. */
  predicate Chained(segs: seq<U8Segment>)
  {
    forall j :: 1 <= j < |segs| ==> !OverlapAt(segs, j)
  }

  lemma {:induction false} PrefixFacts(segs: seq<U8Segment>, m: nat)
    requires m <= |segs|
    ensures AllEven(segs) ==> AllEven(segs[..m])
    ensures forall j :: 1 <= j < m ==> (OverlapAt(segs[..m], j) <==> OverlapAt(segs, j))
    ensures Chained(segs) ==> Chained(segs[..m])
  {
    var p := segs[..m];
    assert forall j :: 0 <= j < m ==> p[j] == segs[j];
  }

  /** A segment in word units: its word offset and its big-endian words. */
  datatype WordSegment = WordSegment(start: nat, words: seq<u16>)

  function WordEnd(w: WordSegment): nat
  {
    w.start + |w.words|
  }

  /** An even byte segment in word units. Its word offset and word end are
   * half its byte offset and byte end. */
  function ToWordSegment(s: U8Segment): (w: WordSegment)
    requires s.offset % 2 == 0 && |s.data| % 2 == 0
    ensures 2 * w.start == s.offset && 2 * WordEnd(w) == End(s)
    ensures 2 * |w.words| == |s.data|
  {
    WordSegment(s.offset / 2, BigEndianWords(s.data))
  }

  function ToWordSegments(segs: seq<U8Segment>): (ws: seq<WordSegment>)
    requires AllEven(segs)
    ensures |ws| == |segs|
  {
    if segs == [] then []
    else
      assert forall i :: 0 <= i < |segs| - 1 ==> segs[1..][i] == segs[i + 1];
      [ToWordSegment(segs[0])] + ToWordSegments(segs[1..])
  }

  /** Word segment `i` is byte segment `i` in word units. */
  lemma {:induction false} ToWordSegmentAt(segs: seq<U8Segment>, i: nat)
    requires AllEven(segs) && i < |segs|
    ensures ToWordSegments(segs)[i] == ToWordSegment(segs[i])
  {
    if i > 0 {
      assert AllEven(segs[1..]) by {
        assert forall j :: 0 <= j < |segs| - 1 ==> segs[1..][j] == segs[j + 1];
      }
      ToWordSegmentAt(segs[1..], i - 1);
    }
  }

  /** Word segment `j` starts before word segment `j - 1` ends. */
  predicate WordOverlapAt(ws: seq<WordSegment>, j: nat)
    requires 1 <= j < |ws|
  {
    ws[j].start < WordEnd(ws[j - 1])
  }

  predicate WordChained(ws: seq<WordSegment>)
  {
    forall j :: 1 <= j < |ws| ==> !WordOverlapAt(ws, j)
  }

  /** Overlap in bytes is overlap in words. */
  lemma {:induction false} ChainedWords(segs: seq<U8Segment>)
    requires AllEven(segs)
    ensures forall j :: 1 <= j < |segs| ==> (OverlapAt(segs, j) <==> WordOverlapAt(ToWordSegments(segs), j))
    ensures Chained(segs) <==> WordChained(ToWordSegments(segs))
  {
    var ws := ToWordSegments(segs);
    forall j | 1 <= j < |segs| ensures OverlapAt(segs, j) <==> WordOverlapAt(ws, j) {
      ToWordSegmentAt(segs, j);
      ToWordSegmentAt(segs, j - 1);
    }
  }

  lemma {:induction false} WordPrefix(ws: seq<WordSegment>, m: nat)
    requires m <= |ws|
    ensures forall j :: 1 <= j < m ==> (WordOverlapAt(ws[..m], j) <==> WordOverlapAt(ws, j))
    ensures WordChained(ws) ==> WordChained(ws[..m])
  {
    var p := ws[..m];
    assert forall j :: 0 <= j < m ==> p[j] == ws[j];
  }

  /** The word at word address `k` of the image the segments describe: a
   * word of the last segment holding `k`, or zero in a gap. */
  function WordAt(ws: seq<WordSegment>, k: nat): u16
  {
    if ws == [] then 0
    else
      var w := ws[|ws| - 1];
      if w.start <= k < WordEnd(w) then w.words[k - w.start] else WordAt(ws[..|ws| - 1], k)
  }

  /** In a chained list every segment ends by the end of the last one, and
   * all but the last end by the last one's start. */
  lemma {:induction false} WordEnds(ws: seq<WordSegment>, j: nat)
    requires WordChained(ws) && j < |ws|
    ensures WordEnd(ws[j]) <= WordEnd(ws[|ws| - 1])
    ensures j < |ws| - 1 ==> WordEnd(ws[j]) <= ws[|ws| - 1].start
  {
    var n := |ws|;
    if j < n - 1 {
      var p := ws[..n - 1];
      WordPrefix(ws, n - 1);
      WordEnds(p, j);
      assert p[j] == ws[j] && p[n - 2] == ws[n - 2];
      assert !WordOverlapAt(ws, n - 1);
    }
  }

  /** Past the end of the last segment the image is zero. */
  lemma {:induction false} WordAtBeyond(ws: seq<WordSegment>, k: nat)
    requires WordChained(ws) && ws != [] && k >= WordEnd(ws[|ws| - 1])
    ensures WordAt(ws, k) == 0
  {
    var n := |ws|;
    if n > 1 {
      var p := ws[..n - 1];
      WordPrefix(ws, n - 1);
      WordEnds(ws, n - 2);
      assert p[n - 2] == ws[n - 2];
      WordAtBeyond(p, k);
    }
  }

  /** Every segment's words appear at its word offset. */
  lemma {:induction false} WordAtSegment(ws: seq<WordSegment>, j: nat, t: nat)
    requires WordChained(ws) && j < |ws| && t < |ws[j].words|
    ensures WordAt(ws, ws[j].start + t) == ws[j].words[t]
  {
    var n := |ws|;
    if j < n - 1 {
      var p := ws[..n - 1];
      WordEnds(ws, j);
      WordPrefix(ws, n - 1);
      assert p[j] == ws[j];
      WordAtSegment(p, j, t);
    }
  }

  /** A word address inside no segment reads as zero. */
  lemma {:induction false} WordAtGap(ws: seq<WordSegment>, k: nat)
    requires forall j :: 0 <= j < |ws| ==> !(ws[j].start <= k < WordEnd(ws[j]))
    ensures WordAt(ws, k) == 0
  {
    if ws != [] {
      var p := ws[..|ws| - 1];
      assert forall j :: 0 <= j < |p| ==> p[j] == ws[j];
      WordAtGap(p, k);
    }
  }

  function Zeros(n: nat): (z: seq<u16>)
    ensures |z| == n && forall i :: 0 <= i < n ==> z[i] == 0
  {
    if n == 0 then [] else [0] + Zeros(n - 1)
  }

  /** The image from word address `base` (at most the first segment's
   * start) to the end of the last segment: each segment's words, with the
   * gap before it filled with zero words. */
  function Layout(ws: seq<WordSegment>, base: nat): (img: seq<u16>)
    requires WordChained(ws) && ws != [] && base <= ws[0].start
    ensures base + |img| == WordEnd(ws[|ws| - 1])
  {
    var n := |ws|;
    var last := ws[n - 1];
    if n == 1 then Zeros(last.start - base) + last.words
    else
      WordPrefix(ws, n - 1);
      assert ws[..n - 1][0] == ws[0] && ws[..n - 1][n - 2] == ws[n - 2];
      assert !WordOverlapAt(ws, n - 1);
      Layout(ws[..n - 1], base) + Zeros(last.start - WordEnd(ws[n - 2])) + last.words
  }

  /** Appending a segment that starts after the end of the last one extends
   * the layout by the gap and the segment's words. */
  lemma {:induction false} LayoutStep(ws: seq<WordSegment>, i: nat, base: nat)
    requires 1 <= i < |ws| && WordChained(ws[..i]) && !WordOverlapAt(ws, i)
    requires base <= ws[0].start
    ensures WordChained(ws[..i + 1])
    ensures Layout(ws[..i + 1], base)
            == Layout(ws[..i], base) + Zeros(ws[i].start - WordEnd(ws[i - 1])) + ws[i].words
  {
    var q := ws[..i + 1];
    WordPrefix(ws, i + 1);
    WordPrefix(ws, i);
    assert q[..i] == ws[..i];
    assert q[i] == ws[i] && q[i - 1] == ws[i - 1];
    forall j | 1 <= j < i + 1 ensures !WordOverlapAt(q, j) {
      if j < i {
        assert !WordOverlapAt(ws[..i], j);
      }
    }
  }

  /** The first overlapping pair found scanning from the front is the only
   * one whose prefix is chained. */
  lemma {:induction false} FirstOverlap(segs: seq<U8Segment>, i: nat)
    requires 1 <= i < |segs| && Chained(segs[..i]) && OverlapAt(segs, i)
    ensures !Chained(segs)
    ensures forall j :: 1 <= j < |segs| && Chained(segs[..j]) && OverlapAt(segs, j) ==> j == i
  {
    forall j | 1 <= j < |segs| && Chained(segs[..j]) && OverlapAt(segs, j)
      ensures j == i
    {
      if j < i {
        PrefixFacts(segs, i);
      } else if j > i {
        PrefixFacts(segs, j);
      }
    }
  }

  /** Indexing a concatenation of three word sequences. */
  lemma {:induction false} Concat3Index(x: seq<u16>, y: seq<u16>, z: seq<u16>, k: nat)
    requires k < |x| + |y| + |z|
    ensures k < |x| ==> (x + y + z)[k] == x[k]
    ensures |x| <= k < |x| + |y| ==> (x + y + z)[k] == y[k - |x|]
    ensures |x| + |y| <= k ==> (x + y + z)[k] == z[k - |x| - |y|]
  {
  }

  /** The layout holds `WordAt` at every word address it covers. */
  lemma {:induction false} LayoutWordAt(ws: seq<WordSegment>, base: nat, k: nat)
    requires WordChained(ws) && ws != [] && base <= ws[0].start
    requires base + k < WordEnd(ws[|ws| - 1])
    ensures Layout(ws, base)[k] == WordAt(ws, base + k)
  {
    var n := |ws|;
    var last := ws[n - 1];
    if n == 1 {
      assert ws[..0] == [];
      Concat3Index([], Zeros(last.start - base), last.words, k);
    } else {
      var p := ws[..n - 1];
      WordPrefix(ws, n - 1);
      assert p[0] == ws[0] && p[n - 2] == ws[n - 2];
      assert !WordOverlapAt(ws, n - 1);
      var front := Layout(p, base);
      var z := Zeros(last.start - WordEnd(ws[n - 2]));
      Concat3Index(front, z, last.words, k);
      if k < |front| {
        LayoutWordAt(p, base, k);
      } else if k < |front| + |z| {
        WordAtBeyond(p, base + k);
      }
    }
  }

  lemma {:induction false} LayoutIsWordAt(ws: seq<WordSegment>, base: nat)
    requires WordChained(ws) && ws != [] && base <= ws[0].start
    ensures forall k :: 0 <= k < |Layout(ws, base)| ==> Layout(ws, base)[k] == WordAt(ws, base + k)
  {
    forall k | 0 <= k < |Layout(ws, base)| ensures Layout(ws, base)[k] == WordAt(ws, base + k) {
      LayoutWordAt(ws, base, k);
    }
  }

  datatype LoadingRomError =
    | UnsupportedRecordType(record: Record)
    | OddRecord(offset: nat, size: nat)
    | Overlapping(offset: nat, size: nat)
    | Empty
    | Offset

  /** The first index from `i` on whose segment starts before the previous
   * one ends. */
  function FirstOverlapFrom(segs: seq<U8Segment>, i: nat): (r: Option<nat>)
    requires i >= 1
    ensures r.Some? ==> i <= r.value < |segs| && OverlapAt(segs, r.value)
    decreases |segs| - i
  {
    if i >= |segs| then None
    else if OverlapAt(segs, i) then Some(i)
    else FirstOverlapFrom(segs, i + 1)
  }

  /** Scanning from the front finds an overlap exactly when the segments
   * are not chained, and the one it finds is the first. */
  lemma {:induction false} FirstOverlapFromChained(segs: seq<U8Segment>, i: nat)
    requires 1 <= i <= |segs| && Chained(segs[..i])
    ensures FirstOverlapFrom(segs, i).None? <==> Chained(segs)
    ensures FirstOverlapFrom(segs, i).Some? ==> Chained(segs[..FirstOverlapFrom(segs, i).value])
    decreases |segs| - i
  {
    if i == |segs| {
      assert segs[..i] == segs;
    } else if OverlapAt(segs, i) {
    } else {
      ChainedStep(segs, i);
      FirstOverlapFromChained(segs, i + 1);
    }
  }

  /** A chained prefix stays chained when the next segment does not overlap
   * the one before it. */
  lemma {:induction false} ChainedStep(segs: seq<U8Segment>, i: nat)
    requires 1 <= i < |segs| && Chained(segs[..i]) && !OverlapAt(segs, i)
    ensures Chained(segs[..i + 1])
  {
    PrefixFacts(segs, i + 1);
    var q := segs[..i + 1];
    forall j | 1 <= j < i + 1 ensures !OverlapAt(q, j) {
      if j < i {
        PrefixFacts(segs, i);
      }
    }
  }

  /** The word image of non-empty segments, or the first overlap: the common
   * core of `convert_u8_segments` and `Rom::from_segments`. */
  function BuildImage(segs: seq<U8Segment>): (r: Result<seq<u16>, LoadingRomError>)
    requires AllEven(segs) && segs != []
    ensures r.Ok? <==> Chained(segs)
    ensures r.Err? ==> r.error.Overlapping?
  {
    assert segs[..1] == [segs[0]];
    FirstOverlapFromChained(segs, 1);
    match FirstOverlapFrom(segs, 1)
    case Some(j) => Err(Overlapping(segs[j].offset, End(segs[j - 1]) - segs[j].offset))
    case None =>
      ChainedWords(segs);
      var ws := ToWordSegments(segs);
      Ok(Layout(ws, ws[0].start))
  }

  /** Chained segments build the layout of their word segments from the
   * first one's word offset. */
  lemma {:induction false} BuildImageOk(segs: seq<U8Segment>)
    requires AllEven(segs) && segs != [] && BuildImage(segs).Ok?
    ensures WordChained(ToWordSegments(segs))
    ensures BuildImage(segs) == Ok(Layout(ToWordSegments(segs), ToWordSegments(segs)[0].start))
  {
    ChainedWords(segs);
  }

  /** The image built from chained segments spans from the first segment's
   * word offset to the end of the last one. */
  lemma {:induction false} BuildImageLength(segs: seq<U8Segment>)
    requires AllEven(segs) && segs != [] && BuildImage(segs).Ok?
    ensures 2 * |BuildImage(segs).value| + segs[0].offset == End(segs[|segs| - 1])
  {
    BuildImageOk(segs);
    ToWordSegmentAt(segs, 0);
    ToWordSegmentAt(segs, |segs| - 1);
  }

  /** The image built from chained segments holds `WordAt` at every word
   * address from the first segment's word offset on. */
  lemma {:induction false} BuildImageWordAt(segs: seq<U8Segment>)
    requires AllEven(segs) && segs != [] && BuildImage(segs).Ok?
    ensures forall k :: 0 <= k < |BuildImage(segs).value| ==>
              BuildImage(segs).value[k] == WordAt(ToWordSegments(segs), ToWordSegments(segs)[0].start + k)
  {
    BuildImageOk(segs);
    var ws := ToWordSegments(segs);
    LayoutIsWordAt(ws, ws[0].start);
  }

  /** The error of overlapping segments names the first overlapping pair:
   * the later segment's offset and the size of the overlap. */
  lemma {:induction false} BuildImageOverlap(segs: seq<U8Segment>, j: nat)
    requires AllEven(segs) && 1 <= j < |segs| && Chained(segs[..j]) && OverlapAt(segs, j)
    ensures BuildImage(segs) == Err(Overlapping(segs[j].offset, End(segs[j - 1]) - segs[j].offset))
  {
    assert segs[..1] == [segs[0]];
    FirstOverlapFromChained(segs, 1);
    FirstOverlap(segs, j);
    var f := FirstOverlapFrom(segs, 1).value;
    assert Chained(segs[..f]) && OverlapAt(segs, f);
  }

  /** What `convert_u8_segments` returns: `Empty`, `Offset` when the first
   * segment does not start at byte 0, or the built image. */
  function ConvertSpec(segs: seq<U8Segment>): (r: Result<seq<u16>, LoadingRomError>)
    requires AllEven(segs)
    ensures r == Err(Empty) <==> segs == []
    ensures segs != [] && segs[0].offset != 0 ==> r == Err(Offset)
    ensures r.Ok? <==> segs != [] && segs[0].offset == 0 && Chained(segs)
  {
    if segs == [] then Err(Empty)
    else if segs[0].offset != 0 then Err(Offset)
    else BuildImage(segs)
  }

  /** The converted image starts at byte 0 and ends with the last
   * segment. */
  lemma {:induction false} ConvertSpecLength(segs: seq<U8Segment>)
    requires AllEven(segs) && ConvertSpec(segs).Ok?
    ensures 2 * |ConvertSpec(segs).value| == End(segs[|segs| - 1])
  {
    BuildImageLength(segs);
  }

  /** The converted image holds `WordAt` at every word address. */
  lemma {:induction false} ConvertSpecWordAt(segs: seq<U8Segment>)
    requires AllEven(segs) && ConvertSpec(segs).Ok?
    ensures forall k :: 0 <= k < |ConvertSpec(segs).value| ==>
              ConvertSpec(segs).value[k] == WordAt(ToWordSegments(segs), k)
  {
    BuildImageWordAt(segs);
    assert ToWordSegments(segs)[0].start == 0;
  }

  /** Overlapping segments starting at byte 0 report the first overlapping
   * pair. */
  lemma {:induction false} ConvertSpecOverlap(segs: seq<U8Segment>, j: nat)
    requires AllEven(segs) && 1 <= j < |segs| && segs[0].offset == 0
    requires Chained(segs[..j]) && OverlapAt(segs, j)
    ensures ConvertSpec(segs) == Err(Overlapping(segs[j].offset, End(segs[j - 1]) - segs[j].offset))
  {
    BuildImageOverlap(segs, j);
  }

  /** The gap before segment `i` and its words, in word units. */
  lemma {:induction false} GapWords(segs: seq<U8Segment>, i: nat)
    requires AllEven(segs) && 1 <= i < |segs| && !OverlapAt(segs, i)
    ensures ToWordSegments(segs)[i].start >= WordEnd(ToWordSegments(segs)[i - 1])
    ensures (segs[i].offset - End(segs[i - 1])) / 2
            == ToWordSegments(segs)[i].start - WordEnd(ToWordSegments(segs)[i - 1])
    ensures BigEndianWords(segs[i].data) == ToWordSegments(segs)[i].words
  {
    var cur, prev := ToWordSegment(segs[i]), ToWordSegment(segs[i - 1]);
    ToWordSegmentAt(segs, i);
    ToWordSegmentAt(segs, i - 1);
    DivModUnique(segs[i].offset - End(segs[i - 1]), 2, cur.start - WordEnd(prev), 0);
  }

  /** One step of the loop below: a segment that does not overlap the one
   * before it extends the chained prefix and its layout. */
  lemma {:induction false} AppendStep(segs: seq<U8Segment>, i: nat, data: seq<u16>)
    requires AllEven(segs) && 1 <= i < |segs| && !OverlapAt(segs, i)
    requires Chained(segs[..i]) && WordChained(ToWordSegments(segs)[..i])
    requires data == Layout(ToWordSegments(segs)[..i], ToWordSegments(segs)[0].start)
    ensures Chained(segs[..i + 1]) && WordChained(ToWordSegments(segs)[..i + 1])
    ensures data + Zeros((segs[i].offset - End(segs[i - 1])) / 2) + BigEndianWords(segs[i].data)
            == Layout(ToWordSegments(segs)[..i + 1], ToWordSegments(segs)[0].start)
  {
    var ws := ToWordSegments(segs);
    var base := ws[0].start;
    assert !WordOverlapAt(ws, i) by {
      GapWords(segs, i);
    }
    LayoutStep(ws, i, base);
    calc {
      Layout(ws[..i + 1], base);
      Layout(ws[..i], base) + Zeros(ws[i].start - WordEnd(ws[i - 1])) + ws[i].words;
      { GapWords(segs, i); }
      data + Zeros((segs[i].offset - End(segs[i - 1])) / 2) + BigEndianWords(segs[i].data);
    }
    ChainedStep(segs, i);
  }

  /** The loop's exit at an overlap returns what `BuildImage` specifies. */
  lemma {:induction false} AppendOverlap(segs: seq<U8Segment>, i: nat)
    requires AllEven(segs) && 1 <= i < |segs| && OverlapAt(segs, i)
    requires FirstOverlapFrom(segs, 1) == FirstOverlapFrom(segs, i)
    ensures BuildImage(segs) == Err(Overlapping(segs[i].offset, End(segs[i - 1]) - segs[i].offset))
  {
  }

  /** The loop's normal exit returns what `BuildImage` specifies. */
  lemma {:induction false} AppendDone(segs: seq<U8Segment>, data: seq<u16>)
    requires AllEven(segs) && segs != [] && Chained(segs) && WordChained(ToWordSegments(segs))
    requires data == Layout(ToWordSegments(segs), ToWordSegments(segs)[0].start)
    ensures BuildImage(segs) == Ok(data)
  {
    assert segs[..1] == [segs[0]];
    FirstOverlapFromChained(segs, 1);
  }

  /** The loop shared by `convert_u8_segments` and `Rom::from_segments`:
   * append each segment's words after a zero-filled gap, stopping at the
   * first segment that starts before the previous one ends. */
  method AppendSegments(segs: seq<U8Segment>) returns (r: Result<seq<u16>, LoadingRomError>)
    requires AllEven(segs) && segs != []
    ensures r == BuildImage(segs)
  {
    ghost var ws := ToWordSegments(segs);
    var data := BigEndianWords(segs[0].data);
    var i := 1;
    assert segs[..1] == [segs[0]] && ws[..1] == [ws[0]];
    assert Layout(ws[..1], ws[0].start) == Zeros(0) + data;
    while i < |segs|
      invariant 1 <= i <= |segs|
      invariant Chained(segs[..i]) && WordChained(ws[..i])
      invariant FirstOverlapFrom(segs, 1) == FirstOverlapFrom(segs, i)
      invariant data == Layout(ws[..i], ws[0].start)
    {
      if segs[i].offset < End(segs[i - 1]) {
        assert OverlapAt(segs, i);
        AppendOverlap(segs, i);
        return Err(Overlapping(segs[i].offset, End(segs[i - 1]) - segs[i].offset));
      }
      assert FirstOverlapFrom(segs, i) == FirstOverlapFrom(segs, i + 1);
      AppendStep(segs, i, data);
      data := data + Zeros((segs[i].offset - End(segs[i - 1])) / 2) + BigEndianWords(segs[i].data);
      i := i + 1;
    }
    assert segs[..i] == segs && ws[..i] == ws;
    AppendDone(segs, data);
    return Ok(data);
  }

  /** `convert_u8_segments`. */
  method ConvertU8Segments(segs: seq<U8Segment>) returns (r: Result<seq<u16>, LoadingRomError>)
    requires AllEven(segs)
    ensures r == ConvertSpec(segs)
  {
    if |segs| == 0 {
      return Err(Empty);
    } else if segs[0].offset != 0 {
      return Err(Offset);
    }
    r := AppendSegments(segs);
  }

  // ------------------------------------------------- the standalone emulator

  /** A ROM of the standalone emulator: its words and its word offset. */
  datatype Rom = Rom(data: seq<u16>, offset: nat)

  /** The outcome of `Rom::from_segments` as written: it has no overlap check,
   * so an overlapping pair makes `current.offset - prev.end()` underflow,
   * which panics. */
  datatype FromSegmentsOutcome = Returns(result: Result<Rom, LoadingRomError>) | Panics

  /** `Rom::from_segments` as written: the first segment may start anywhere
   * (the word offset is kept in the ROM), and overlapping segments panic. */
  function RomFromSegmentsAsWritten(segs: seq<U8Segment>): (r: FromSegmentsOutcome)
    requires AllEven(segs)
    ensures r.Panics? <==> segs != [] && !Chained(segs)
    ensures r == Returns(Err(Empty)) <==> segs == []
    ensures segs != [] && r.Returns? && r.result.Ok? ==>
              2 * (r.result.value.offset + |r.result.value.data|) == End(segs[|segs| - 1])
  {
    if segs == [] then Returns(Err(Empty))
    else if !Chained(segs) then Panics
    else
      ChainedWords(segs);
      ToWordSegmentAt(segs, 0);
      ToWordSegmentAt(segs, |segs| - 1);
      var ws := ToWordSegments(segs);
      Returns(Ok(Rom(Layout(ws, ws[0].start), ws[0].start)))
  }

  /** Overlapping segments: the second starts inside the first. */
  lemma {:induction false} RomFromSegmentsPanicsOnOverlap(segs: seq<U8Segment>)
    requires segs == [U8Segment(0, [1, 2, 3, 4]), U8Segment(2, [5, 6])]
    ensures RomFromSegmentsAsWritten(segs).Panics?
  {
    assert OverlapAt(segs, 1);
  }

  /** `Rom::from_segments` with the overlap check of the emulator
   * toolchain's `convert_u8_segments`: `Empty`, the `Overlapping` error in
   * place of the panic, or the image at the first segment's word offset. */
  function RomSpec(segs: seq<U8Segment>): (r: Result<Rom, LoadingRomError>)
    requires AllEven(segs)
    ensures r == Err(Empty) <==> segs == []
    ensures r.Ok? <==> segs != [] && Chained(segs)
    ensures r.Ok? ==> 2 * r.value.offset == segs[0].offset
  {
    if segs == [] then Err(Empty)
    else
      match BuildImage(segs)
      case Ok(data) => Ok(Rom(data, segs[0].offset / 2))
      case Err(e) => Err(e)
  }

  /** The corrected ROM agrees with the code as written wherever that does
   * not panic, and reports `Overlapping` where it panics. */
  lemma {:induction false} RomSpecAgrees(segs: seq<U8Segment>)
    requires AllEven(segs)
    ensures RomSpec(segs).Ok? ==> RomFromSegmentsAsWritten(segs) == Returns(RomSpec(segs))
    ensures RomSpec(segs).Err? && segs != [] ==>
              RomSpec(segs).error.Overlapping? && RomFromSegmentsAsWritten(segs).Panics?
  {
    if segs != [] && Chained(segs) {
      BuildImageOk(segs);
    }
  }

  /** The corrected ROM holds `WordAt` at every word address it covers. */
  lemma {:induction false} RomSpecWordAt(segs: seq<U8Segment>)
    requires AllEven(segs) && RomSpec(segs).Ok?
    ensures forall k :: 0 <= k < |RomSpec(segs).value.data| ==>
              RomSpec(segs).value.data[k] == WordAt(ToWordSegments(segs), RomSpec(segs).value.offset + k)
  {
    var ws := ToWordSegments(segs);
    var rom := RomSpec(segs).value;
    assert rom.data == BuildImage(segs).value;
    assert ws[0].start == rom.offset by {
      assert ws[0] == ToWordSegment(segs[0]);
    }
    BuildImageWordAt(segs);
  }

  /** `Rom::from_segments`, with the overlap check. */
  method RomFromSegments(segs: seq<U8Segment>) returns (r: Result<Rom, LoadingRomError>)
    requires AllEven(segs)
    ensures r == RomSpec(segs)
  {
    if |segs| == 0 {
      return Err(Empty);
    }
    var image := AppendSegments(segs);
    match image {
      case Ok(data) => r := Ok(Rom(data, segs[0].offset / 2));
      case Err(e) => r := Err(e);
    }
  }

  /** `test_rom_from_segments_one`: one segment at byte offset `2 * offset`
   * gives a ROM at word offset `offset` holding the segment's words. */
  lemma {:induction false} RomFromOneSegment(offset: nat, data: seq<u8>, segs: seq<U8Segment>)
    requires |data| % 2 == 0 && segs == [U8Segment(2 * offset, data)]
    ensures RomFromSegmentsAsWritten(segs) == Returns(Ok(Rom(BigEndianWords(data), offset)))
  {
    assert Chained(segs);
    ChainedWords(segs);
    var ws := ToWordSegments(segs);
    assert ws[0] == WordSegment(offset, BigEndianWords(data));
    assert Layout(ws, offset) == Zeros(0) + BigEndianWords(data);
    assert Zeros(0) + BigEndianWords(data) == BigEndianWords(data);
    assert RomFromSegmentsAsWritten(segs) == Returns(Ok(Rom(Layout(ws, ws[0].start), ws[0].start)));
  }

  // ------------------------------------------------------------- records

  /** A parsed Intel HEX record, as the `ihex` crate returns it. */
  datatype Record =
    | Data(offset: u16, value: seq<u8>)
    | EndOfFile
    | ExtendedSegmentAddress(segment: u16)
    | StartSegmentAddress(cs: u16, ip: u16)
    | ExtendedLinearAddress(upper: u16)
    | StartLinearAddress(address: nat)

  /** The segments the records after an address base describe, in file
   * order: empty data records are skipped, a data record with an odd offset
   * or odd length is an `OddRecord` error, an extended linear address record
   * sets the base to `ext << 16`, end of file stops, and any other record is
   * unsupported. */
  function Collect(records: seq<Record>, base: nat): Result<seq<U8Segment>, LoadingRomError>
  {
    if records == [] then Ok([])
    else
      match records[0]
      case Data(offset, value) =>
        if |value| == 0 then Collect(records[1..], base)
        else if offset % 2 != 0 || |value| % 2 != 0 then Err(OddRecord(base + offset, |value|))
        else Prepend([U8Segment(base + offset, value)], Collect(records[1..], base))
      case ExtendedLinearAddress(ext) => Collect(records[1..], ext * 0x1_0000)
      case EndOfFile => Ok([])
      case _ => Err(UnsupportedRecordType(records[0]))
  }

  function Prepend(front: seq<U8Segment>, r: Result<seq<U8Segment>, LoadingRomError>): Result<seq<U8Segment>, LoadingRomError>
  {
    match r
    case Ok(s) => Ok(front + s)
    case Err(e) => Err(e)
  }

  lemma {:induction false} PrependAssoc(a: seq<U8Segment>, b: seq<U8Segment>, r: Result<seq<U8Segment>, LoadingRomError>)
    ensures Prepend(a, Prepend(b, r)) == Prepend(a + b, r)
  {
    if r.Ok? {
      assert a + (b + r.value) == (a + b) + r.value;
    }
  }

  /** The collected segments are non-empty with even offsets and lengths,
   * so they can be converted to words. */
  lemma {:induction false} CollectEven(records: seq<Record>, base: nat)
    requires base % 2 == 0
    ensures Collect(records, base).Ok? ==> AllEven(Collect(records, base).value)
    ensures Collect(records, base).Ok? ==>
              forall i :: 0 <= i < |Collect(records, base).value| ==> |Collect(records, base).value[i].data| > 0
  {
    if records != [] {
      match records[0]
      case Data(offset, value) =>
        CollectEven(records[1..], base);
      case ExtendedLinearAddress(ext) =>
        CollectEven(records[1..], ext * 0x1_0000);
      case _ =>
    }
  }

  predicate SortedByOffset(s: seq<U8Segment>)
  {
    forall i, j :: 0 <= i < j < |s| ==> s[i].offset <= s[j].offset
  }

  function Insert(x: U8Segment, s: seq<U8Segment>): (r: seq<U8Segment>)
    requires SortedByOffset(s)
    ensures SortedByOffset(r) && multiset(r) == multiset(s) + multiset{x}
    ensures |r| == |s| + 1 && forall i :: 0 <= i < |r| ==> r[i] == x || r[i] in s
  {
    if s == [] || x.offset <= s[0].offset then [x] + s
    else
      var rest := Insert(x, s[1..]);
      assert s == [s[0]] + s[1..];
      assert forall i :: 0 <= i < |rest| ==> s[0].offset <= rest[i].offset;
      [s[0]] + rest
  }

  /** `sort_unstable_by_key(|segment| segment.offset)`: a permutation sorted
   * by offset (the order among equal offsets is unspecified in the source). */
  function SortByOffset(s: seq<U8Segment>): (r: seq<U8Segment>)
    ensures SortedByOffset(r) && multiset(r) == multiset(s)
  {
    if s == [] then []
    else
      assert s == [s[0]] + s[1..];
      Insert(s[0], SortByOffset(s[1..]))
  }

  /** `load_ihex_segments` over an already parsed record list: the first
   * error in file order, or the collected segments sorted by offset. */
  method LoadIhexSegments(records: seq<Record>) returns (r: Result<seq<U8Segment>, LoadingRomError>)
    ensures r.Err? <==> Collect(records, 0).Err?
    ensures r.Err? ==> r == Collect(records, 0)
    ensures r.Ok? ==> SortedByOffset(r.value) && multiset(r.value) == multiset(Collect(records, 0).value)
  {
    var ret: seq<U8Segment> := [];
    var addressBase: nat := 0;
    var i := 0;
    assert records[0..] == records;
    assert Prepend([], Collect(records, 0)) == Collect(records, 0) by {
      if Collect(records, 0).Ok? {
        assert [] + Collect(records, 0).value == Collect(records, 0).value;
      }
    }
    while i < |records|
      invariant 0 <= i <= |records|
      invariant Collect(records, 0) == Prepend(ret, Collect(records[i..], addressBase))
    {
      var rest := records[i + 1..];
      assert records[i..][1..] == rest;
      match records[i] {
        case Data(offset, value) =>
          if |value| == 0 {
          } else if offset % 2 != 0 || |value| % 2 != 0 {
            return Err(OddRecord(addressBase + offset, |value|));
          } else {
            PrependAssoc(ret, [U8Segment(addressBase + offset, value)], Collect(rest, addressBase));
            ret := ret + [U8Segment(addressBase + offset, value)];
          }
        case ExtendedLinearAddress(ext) =>
          addressBase := ext * 0x1_0000;
        case EndOfFile =>
          assert ret + [] == ret;
          return Ok(SortByOffset(ret));
        case _ =>
          return Err(UnsupportedRecordType(records[i]));
      }
      i := i + 1;
    }
    assert ret + [] == ret;
    return Ok(SortByOffset(ret));
  }

  /** `test_load_ihex_extended_address`: a data record after an extended
   * linear address record `0xffff` lands at `0xffff0010`. */
  lemma {:induction false} CollectExtendedAddress(rs: seq<Record>)
    requires rs == [Data(0x10, [0x11, 0x22, 0x33, 0x44]), ExtendedLinearAddress(0xffff),
                    Data(0x10, [0x11, 0x22, 0x33, 0x44])]
    ensures Collect(rs, 0)
            == Ok([U8Segment(0x10, [0x11, 0x22, 0x33, 0x44]), U8Segment(0xffff_0010, [0x11, 0x22, 0x33, 0x44])])
  {
    var v: seq<u8> := [0x11, 0x22, 0x33, 0x44];
    var last := rs[2..];
    assert last == [Data(0x10, v)] && last[1..] == [];
    assert Collect(last[1..], 0xffff_0000) == Ok([]);
    assert [U8Segment(0xffff_0010, v)] + [] == [U8Segment(0xffff_0010, v)];
    assert Collect(last, 0xffff_0000) == Ok([U8Segment(0xffff_0010, v)]);
    assert rs[1..][1..] == last;
    assert Collect(rs[1..], 0) == Collect(last, 0xffff_0000);
    assert Collect(rs, 0) == Prepend([U8Segment(0x10, v)], Collect(rs[1..], 0));
    assert [U8Segment(0x10, v)] + [U8Segment(0xffff_0010, v)]
           == [U8Segment(0x10, v), U8Segment(0xffff_0010, v)];
  }

  /** `test_load_ihex_odd_offset` and `test_load_ihex_odd_length`. */
  lemma {:induction false} CollectOddRecords()
    ensures Collect([Data(0x11, [0x11, 0x22, 0x33, 0x44])], 0) == Err(OddRecord(0x11, 4))
    ensures Collect([Data(0x10, [0x11, 0x22, 0x33, 0x44, 0x00])], 0) == Err(OddRecord(0x10, 5))
  {
  }
}
