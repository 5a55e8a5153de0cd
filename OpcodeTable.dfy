/** Opcode tables built by the code generators: `expand_encoding`,
 * `make_opcode_table` and the grouping of equal neighbouring slots into
 * match arms (`dedup_by_with_count`). The three generators
 * (`toolchain-rs/build.rs`, `toolchain-rs/disassembler/build.rs` and
 * `emulator-rs/build.rs`) share these steps; the emulator's copy takes the
 * opcode width as a parameter, the others use `OPCODE_BITS`. */
module OpcodeTable {
  import opened Wrappers
  import opened Arith
  import InstructionSet

  // ------------------------------------------------------------ patterns

  /** The values a pattern character allows for its bit: `0`, `1`, or both
   * for any other character. */
  function Choices(c: char): seq<nat>
  {
    if c == '0' then [0] else if c == '1' then [1] else [0, 1]
  }

  /** `v` matches the pattern `s`, read most significant bit first: the
   * last character constrains the lowest bit, and `v` has no bit above the
   * pattern's width. */
  predicate Matches(s: string, v: nat)
    decreases |s|
  {
    if s == [] then v == 0
    else v % 2 in Choices(s[|s| - 1]) && Matches(s[..|s| - 1], v / 2)
  }

  /** The number of characters other than `0` and `1`. */
  function Wildcards(s: string): nat
    decreases |s|
  {
    if s == [] then 0
    else Wildcards(s[..|s| - 1]) + |Choices(s[|s| - 1])| - 1
  }

  predicate Increasing(r: seq<nat>)
  {
    forall i, j :: 0 <= i < j < |r| ==> r[i] < r[j]
  }

  /** Each value of `vs` extended by each bit of `bits` in turn, as the
   * fold `(acc << 1) + digit` does over the cartesian product. */
  function Spread(vs: seq<nat>, bits: seq<nat>): seq<nat>
    decreases |vs|
  {
    if vs == [] then []
    else seq(|bits|, j requires 0 <= j < |bits| => 2 * vs[0] + bits[j]) + Spread(vs[1..], bits)
  }

  /** `expand_encoding`: the numbers that match a pattern, in the order
   * the cartesian product produces them. */
  function ExpandEncoding(s: string): (r: seq<nat>)
    requires |s| > 0
    decreases |s|
  {
    if |s| == 1 then Choices(s[0])
    else Spread(ExpandEncoding(s[..|s| - 1]), Choices(s[|s| - 1]))
  }

  lemma {:induction false} SpreadMember(vs: seq<nat>, bits: seq<nat>, v: nat)
    requires forall j :: 0 <= j < |bits| ==> bits[j] < 2
    ensures v in Spread(vs, bits) <==> v / 2 in vs && v % 2 in bits
    decreases |vs|
  {
    if vs != [] {
      SpreadMember(vs[1..], bits, v);
      var block := seq(|bits|, j requires 0 <= j < |bits| => 2 * vs[0] + bits[j]);
      assert Spread(vs, bits) == block + Spread(vs[1..], bits);
      assert vs == [vs[0]] + vs[1..];
      if v in block {
        var j :| 0 <= j < |bits| && block[j] == v;
        assert v / 2 == vs[0] && v % 2 == bits[j];
      }
      if v / 2 == vs[0] && v % 2 in bits {
        var j :| 0 <= j < |bits| && bits[j] == v % 2;
        assert block[j] == v;
      }
    }
  }

  lemma {:induction false} SpreadLength(vs: seq<nat>, bits: seq<nat>)
    ensures |Spread(vs, bits)| == |vs| * |bits|
    decreases |vs|
  {
    if vs != [] {
      SpreadLength(vs[1..], bits);
    }
  }

  lemma {:induction false} SpreadIncreasing(vs: seq<nat>, bits: seq<nat>)
    requires Increasing(vs) && Increasing(bits)
    requires forall j :: 0 <= j < |bits| ==> bits[j] < 2
    ensures Increasing(Spread(vs, bits))
    decreases |vs|
  {
    if vs != [] {
      var block := seq(|bits|, j requires 0 <= j < |bits| => 2 * vs[0] + bits[j]);
      var rest := Spread(vs[1..], bits);
      SpreadIncreasing(vs[1..], bits);
      forall y | y in rest
        ensures y >= 2 * vs[0] + 2
      {
        SpreadMember(vs[1..], bits, y);
        var k :| 0 <= k < |vs[1..]| && vs[1..][k] == y / 2;
        assert vs[k + 1] > vs[0];
      }
      var r := block + rest;
      assert Spread(vs, bits) == r;
      forall i, j | 0 <= i < j < |r|
        ensures r[i] < r[j]
      {
        if j >= |block| && i < |block| {
          assert r[j] == rest[j - |block|];
          assert rest[j - |block|] in rest;
        }
      }
    }
  }

  /** Everything a pattern allows is no wider than the pattern. */
  lemma {:induction false} MatchesBound(s: string, v: nat)
    requires Matches(s, v)
    ensures v < Pow2(|s|)
    decreases |s|
  {
    if s != [] {
      MatchesBound(s[..|s| - 1], v / 2);
    }
  }

  /** `expand_encoding` yields exactly the numbers that match the
   * pattern. */
  lemma {:induction false} ExpandMatches(s: string, v: nat)
    requires |s| > 0
    ensures v in ExpandEncoding(s) <==> Matches(s, v)
    decreases |s|
  {
    if |s| == 1 {
      assert s[..0] == [];
    } else {
      SpreadMember(ExpandEncoding(s[..|s| - 1]), Choices(s[|s| - 1]), v);
      ExpandMatches(s[..|s| - 1], v / 2);
    }
  }

  /** It yields `2^k` numbers for `k` wildcards, in increasing order, so
   * none twice. */
  lemma {:induction false} ExpandCount(s: string)
    requires |s| > 0
    ensures |ExpandEncoding(s)| == Pow2(Wildcards(s))
    ensures Increasing(ExpandEncoding(s))
    decreases |s|
  {
    if |s| == 1 {
      assert s[..0] == [];
    } else {
      var init := s[..|s| - 1];
      ExpandCount(init);
      var vs, bits := ExpandEncoding(init), Choices(s[|s| - 1]);
      SpreadLength(vs, bits);
      SpreadIncreasing(vs, bits);
      CountStep(|ExpandEncoding(s)|, Wildcards(init), |bits|, Wildcards(s));
    }
  }

  /** A fixed bit keeps the count, a wildcard doubles it. */
  lemma CountStep(n: nat, w0: nat, c: nat, w: nat)
    requires c == 1 || c == 2
    requires w + 1 == w0 + c && n == Pow2(w0) * c
    ensures n == Pow2(w)
  {
  }

  lemma ExpandExample()
    ensures ExpandEncoding("1x0") == [4, 6]
    ensures ExpandEncoding("x1x") == [2, 3, 6, 7]
  {
    assert "1x0"[..2] == "1x" && "1x"[..1] == "1";
    assert ExpandEncoding("1") == [1];
    assert Spread([1], [0, 1]) == [2, 3] + Spread([], [0, 1]);
    assert ExpandEncoding("1x") == [2, 3];
    assert Spread([2, 3], [0]) == [4] + Spread([3], [0]);
    assert "x1x"[..2] == "x1" && "x1"[..1] == "x";
    assert ExpandEncoding("x1") == Spread([0, 1], [1]) == [1, 3];
    assert Spread([1, 3], [0, 1]) == [2, 3] + Spread([3], [0, 1]);
  }

  // ---------------------------------------------------------- the table

  /** One entry of the instruction-set definition: the mnemonic (the key of
   * the definition map, so unique), its pieces and its arguments. */
  datatype Definition = Definition(mnemonic: string, pieces: seq<InstructionSet.Piece>, args: map<string, InstructionSet.ArgType>)

  function EncodingOf(d: Definition, instructionBits: nat): Result<string, InstructionSet.DefinitionError>
  {
    InstructionSet.Encoding(d.pieces, d.args, d.mnemonic, instructionBits)
  }

  /** The encodings of all definitions in order, or the first definition's
   * error. */
  function Encodings(defs: seq<Definition>, instructionBits: nat): (r: Result<seq<string>, InstructionSet.DefinitionError>)
    ensures r.Ok? ==> |r.value| == |defs|
    ensures r.Ok? ==> forall j :: 0 <= j < |defs| ==> EncodingOf(defs[j], instructionBits) == Ok(r.value[j])
    ensures r.Err? ==> exists j :: 0 <= j < |defs| && EncodingOf(defs[j], instructionBits) == Err(r.error)
    decreases |defs|
  {
    if defs == [] then Ok([])
    else
      var init := defs[..|defs| - 1];
      assert forall j :: 0 <= j < |init| ==> init[j] == defs[j];
      match Encodings(init, instructionBits)
      case Err(e) => Err(e)
      case Ok(es) =>
        match EncodingOf(defs[|defs| - 1], instructionBits)
        case Err(e) => Err(e)
        case Ok(e) => Ok(es + [e])
  }

  /** A definition that fails is reported whatever follows it. */
  lemma {:induction false} EncodingsFirstError(defs: seq<Definition>, instructionBits: nat, k: nat)
    requires k <= |defs| && Encodings(defs[..k], instructionBits).Err?
    ensures Encodings(defs, instructionBits) == Encodings(defs[..k], instructionBits)
    decreases |defs| - k
  {
    if k < |defs| {
      var init := defs[..|defs| - 1];
      assert init[..k] == defs[..k];
      EncodingsFirstError(init, instructionBits, k);
    } else {
      assert defs[..k] == defs;
    }
  }

  /** The opcode part (`encoding[..opcode_bits]`) of each encoding. */
  function OpcodePatterns(encodings: seq<string>, opcodeBits: nat): (r: seq<string>)
    requires forall j :: 0 <= j < |encodings| ==> |encodings[j]| >= opcodeBits
    ensures |r| == |encodings|
  {
    seq(|encodings|, j requires 0 <= j < |encodings| => encodings[j][..opcodeBits])
  }

  /** The definition a slot ends up holding: the last one whose pattern
   * matches the slot, or none. */
  function Owner(patterns: seq<string>, o: nat): (r: Option<nat>)
    ensures r.Some? ==> r.value < |patterns| && Matches(patterns[r.value], o)
    ensures r.Some? ==> forall k :: r.value < k < |patterns| ==> !Matches(patterns[k], o)
    ensures r.None? ==> forall k :: 0 <= k < |patterns| ==> !Matches(patterns[k], o)
    decreases |patterns|
  {
    if patterns == [] then None
    else if Matches(patterns[|patterns| - 1], o) then Some(|patterns| - 1)
    else
      var init := patterns[..|patterns| - 1];
      assert forall k :: 0 <= k < |init| ==> init[k] == patterns[k];
      Owner(init, o)
  }

  /** `make_opcode_table`: `2^opcode_bits` slots, each holding the index of
   * the definition that owns it. */
  function OpcodeTableOf(defs: seq<Definition>, opcodeBits: nat, instructionBits: nat): (r: Result<seq<Option<nat>>, InstructionSet.DefinitionError>)
    requires opcodeBits <= instructionBits
  {
    match Encodings(defs, instructionBits)
    case Err(e) => Err(e)
    case Ok(es) =>
      var patterns := OpcodePatterns(es, opcodeBits);
      Ok(seq(Pow2(opcodeBits), o requires 0 <= o < Pow2(opcodeBits) => Owner(patterns, o)))
  }

  /** What the table holds: slot `o` names the last definition whose
   * encoding's opcode bits match `o`, so later definitions overwrite
   * earlier overlapping ones; a slot no definition matches stays empty;
   * and the table fails exactly when some definition's encoding fails. */
  lemma OpcodeTableSlots(defs: seq<Definition>, opcodeBits: nat, instructionBits: nat, o: nat)
    requires opcodeBits <= instructionBits
    requires o < Pow2(opcodeBits)
    ensures var r := OpcodeTableOf(defs, opcodeBits, instructionBits);
      (r.Err? <==> exists j :: 0 <= j < |defs| && EncodingOf(defs[j], instructionBits).Err?) &&
      (r.Ok? ==> |r.value| == Pow2(opcodeBits)) &&
      (r.Ok? && r.value[o].Some? ==>
        var j := r.value[o].value;
        j < |defs| && Matches(EncodingOf(defs[j], instructionBits).value[..opcodeBits], o) &&
        forall k :: j < k < |defs| ==> !Matches(EncodingOf(defs[k], instructionBits).value[..opcodeBits], o)) &&
      (r.Ok? && r.value[o].None? ==>
        forall k :: 0 <= k < |defs| ==> !Matches(EncodingOf(defs[k], instructionBits).value[..opcodeBits], o))
  {
    var e := Encodings(defs, instructionBits);
    if e.Ok? {
      var patterns := OpcodePatterns(e.value, opcodeBits);
      assert forall k :: 0 <= k < |defs| ==> patterns[k] == EncodingOf(defs[k], instructionBits).value[..opcodeBits];
    }
  }

  /** Appending one definition's pattern: the slots it matches now name
   * it, the others keep their owner. */
  lemma OwnerAppend(patterns: seq<string>, pattern: string, o: nat)
    ensures Owner(patterns + [pattern], o) == if Matches(pattern, o) then Some(|patterns|) else Owner(patterns, o)
  {
    assert (patterns + [pattern])[..|patterns|] == patterns;
  }

  /** One more definition that encodes: the encodings and the patterns
   * grow by one. */
  lemma EncodingsAppend(defs: seq<Definition>, instructionBits: nat, opcodeBits: nat, i: nat)
    requires opcodeBits <= instructionBits
    requires i < |defs| && Encodings(defs[..i], instructionBits).Ok? && EncodingOf(defs[i], instructionBits).Ok?
    ensures Encodings(defs[..i + 1], instructionBits) == Ok(Encodings(defs[..i], instructionBits).value + [EncodingOf(defs[i], instructionBits).value])
    ensures OpcodePatterns(Encodings(defs[..i + 1], instructionBits).value, opcodeBits) ==
      OpcodePatterns(Encodings(defs[..i], instructionBits).value, opcodeBits) + [EncodingOf(defs[i], instructionBits).value[..opcodeBits]]
  {
    assert defs[..i + 1][..i] == defs[..i];
  }

  /** The inner loop of `make_opcode_table`: every opcode the pattern
   * expands to gets definition `i`. */
  method FillSlots(table: array<Option<nat>>, pattern: string, i: nat, ghost patterns: seq<string>)
    requires |pattern| > 0 && table.Length == Pow2(|pattern|) && i == |patterns|
    requires forall o :: 0 <= o < table.Length ==> table[o] == Owner(patterns, o)
    modifies table
    ensures forall o :: 0 <= o < table.Length ==> table[o] == Owner(patterns + [pattern], o)
  {
    var opcodes := ExpandEncoding(pattern);
    var k := 0;
    while k < |opcodes|
      invariant 0 <= k <= |opcodes|
      invariant forall o :: 0 <= o < table.Length ==>
        table[o] == (if o in opcodes[..k] then Some(i) else Owner(patterns, o))
    {
      ExpandMatches(pattern, opcodes[k]);
      MatchesBound(pattern, opcodes[k]);
      assert opcodes[..k + 1] == opcodes[..k] + [opcodes[k]];
      table[opcodes[k]] := Some(i);
      k := k + 1;
    }
    assert opcodes[..k] == opcodes;
    forall o | 0 <= o < table.Length
      ensures table[o] == Owner(patterns + [pattern], o)
    {
      ExpandMatches(pattern, o);
      OwnerAppend(patterns, pattern, o);
    }
  }

  /** The loops of `make_opcode_table`, filling a table in definition
   * order. */
  method MakeOpcodeTable(defs: seq<Definition>, opcodeBits: nat, instructionBits: nat) returns (r: Result<seq<Option<nat>>, InstructionSet.DefinitionError>)
    requires 0 < opcodeBits <= instructionBits
    ensures r == OpcodeTableOf(defs, opcodeBits, instructionBits)
  {
    var table: array<Option<nat>> := new Option<nat>[Pow2(opcodeBits)](_ => None);
    ghost var patterns: seq<string> := [];
    var i := 0;
    while i < |defs|
      invariant 0 <= i <= |defs|
      invariant Encodings(defs[..i], instructionBits).Ok?
      invariant patterns == OpcodePatterns(Encodings(defs[..i], instructionBits).value, opcodeBits)
      invariant table.Length == Pow2(opcodeBits)
      invariant forall o :: 0 <= o < table.Length ==> table[o] == Owner(patterns, o)
    {
      var d := defs[i];
      var enc := InstructionSet.EncodingLoop(d.pieces, d.args, d.mnemonic, instructionBits);
      if enc.Err? {
        assert defs[..i + 1][..i] == defs[..i];
        EncodingsFirstError(defs, instructionBits, i + 1);
        return Err(enc.error);
      }
      EncodingsAppend(defs, instructionBits, opcodeBits, i);
      FillSlots(table, enc.value[..opcodeBits], i, patterns);
      patterns := patterns + [enc.value[..opcodeBits]];
      i := i + 1;
    }
    assert defs[..i] == defs;
    assert table[..] == seq(Pow2(opcodeBits), o requires 0 <= o < Pow2(opcodeBits) => Owner(patterns, o));
    return Ok(table[..]);
  }

  // ------------------------------------------------------------ grouping

  /** A match arm: `count` neighbouring slots from `start` on, all holding
   * `value`. */
  datatype Run<T> = Run(start: nat, count: nat, value: T)

  /** `enumerate().dedup_by_with_count(..)`: the maximal runs of equal
   * neighbours, numbered from `start`. */
  function Runs<T(==)>(s: seq<T>, start: nat): seq<Run<T>>
    decreases |s|
  {
    if s == [] then []
    else
      var rest := Runs(s[1..], start + 1);
      if rest != [] && rest[0].value == s[0] then [Run(start, rest[0].count + 1, s[0])] + rest[1..]
      else [Run(start, 1, s[0])] + rest
  }

  /** The slots the runs stand for, in order. */
  function Flatten<T>(runs: seq<Run<T>>): seq<T>
    decreases |runs|
  {
    if runs == [] then []
    else Repeat(runs[0].count, runs[0].value) + Flatten(runs[1..])
  }

  /** `n` copies of `v`. */
  function Repeat<T>(n: nat, v: T): (r: seq<T>)
    ensures |r| == n && forall i :: 0 <= i < n ==> r[i] == v
  {
    seq(n, _ => v)
  }

  lemma RepeatCons<T>(n: nat, v: T)
    ensures Repeat(n + 1, v) == [v] + Repeat(n, v)
  {
    assert Repeat(n + 1, v) == [v] + Repeat(n, v);
  }

  /** Grouping loses nothing: the runs spell out the table again. */
  lemma {:induction false} RunsFlatten<T>(s: seq<T>, start: nat)
    ensures Flatten(Runs(s, start)) == s
    decreases |s|
  {
    if s != [] {
      var rest := Runs(s[1..], start + 1);
      RunsFlatten(s[1..], start + 1);
      if rest != [] && rest[0].value == s[0] {
        FlattenMerged(s, start, rest);
      } else {
        FlattenSeparate(s, start, rest);
      }
    }
  }

  lemma FlattenMerged<T>(s: seq<T>, start: nat, rest: seq<Run<T>>)
    requires s != [] && rest == Runs(s[1..], start + 1) && Flatten(rest) == s[1..]
    requires rest != [] && rest[0].value == s[0]
    ensures Flatten(Runs(s, start)) == s
  {
    var head := Run(start, rest[0].count + 1, s[0]);
    var runs := [head] + rest[1..];
    assert Runs(s, start) == runs;
    FlattenCons(head, rest[1..], runs);
    FlattenCons(rest[0], rest[1..], rest);
    RepeatCons(rest[0].count, s[0]);
    ConsAssoc(s[0], Repeat(rest[0].count, s[0]), Flatten(rest[1..]), Flatten(rest), s);
  }

  lemma FlattenCons<T>(head: Run<T>, tail: seq<Run<T>>, runs: seq<Run<T>>)
    requires runs == [head] + tail
    ensures Flatten(runs) == Repeat(head.count, head.value) + Flatten(tail)
  {
    assert runs[1..] == tail;
  }

  lemma ConsAssoc<T>(x: T, a: seq<T>, b: seq<T>, ab: seq<T>, s: seq<T>)
    requires ab == a + b && s != [] && s[0] == x && s[1..] == ab
    ensures ([x] + a) + b == s
  {
    assert s == [s[0]] + s[1..];
  }

  lemma FlattenSeparate<T>(s: seq<T>, start: nat, rest: seq<Run<T>>)
    requires s != [] && rest == Runs(s[1..], start + 1) && Flatten(rest) == s[1..]
    requires !(rest != [] && rest[0].value == s[0])
    ensures Flatten(Runs(s, start)) == s
  {
    var runs := [Run(start, 1, s[0])] + rest;
    assert Runs(s, start) == runs;
    assert runs[1..] == rest;
    assert Repeat(1, s[0]) == [s[0]];
    assert s == [s[0]] + s[1..];
  }

  /** The first run starts at `start`, and runs are empty only for an empty
   * table. */
  lemma {:induction false} RunsHead<T>(s: seq<T>, start: nat)
    ensures var r := Runs(s, start);
      (r == [] <==> s == []) && (r != [] ==> r[0].start == start && r[0].value == s[0])
    decreases |s|
  {
  }

  /** Every run is non-empty and neighbouring runs hold different values,
   * so the runs are maximal. */
  lemma {:induction false} RunsMaximal<T>(s: seq<T>, start: nat)
    ensures forall k :: 0 <= k < |Runs(s, start)| ==> Runs(s, start)[k].count >= 1
    ensures forall k :: 0 <= k < |Runs(s, start)| - 1 ==> Runs(s, start)[k].value != Runs(s, start)[k + 1].value
    decreases |s|
  {
    if s != [] {
      var rest := Runs(s[1..], start + 1);
      RunsMaximal(s[1..], start + 1);
      var r := Runs(s, start);
      if rest != [] && rest[0].value == s[0] {
        assert r == [Run(start, rest[0].count + 1, s[0])] + rest[1..];
        forall k | 0 <= k < |r|
          ensures r[k].count >= 1
        {
          if k > 0 {
            assert r[k] == rest[k];
            assert rest[k].count >= 1;
          }
        }
        forall k | 0 <= k < |r| - 1
          ensures r[k].value != r[k + 1].value
        {
          assert r[k + 1] == rest[k + 1];
          if k == 0 {
            assert rest[0].value != rest[1].value;
          } else {
            assert r[k] == rest[k];
          }
        }
      } else {
        assert r == [Run(start, 1, s[0])] + rest;
        forall k | 0 <= k < |r|
          ensures r[k].count >= 1
        {
          assert k > 0 ==> r[k] == rest[k - 1];
        }
        RunsHead(s[1..], start + 1);
        forall k | 0 <= k < |r| - 1
          ensures r[k].value != r[k + 1].value
        {
          assert r[k + 1] == rest[k];
          assert k > 0 ==> r[k] == rest[k - 1];
        }
      }
    }
  }

  /** The runs tile the index range `start .. start + |s|` in order and
   * without gaps: each match arm's range begins where the previous one
   * ends. */
  lemma {:induction false} RunsTile<T>(s: seq<T>, start: nat)
    ensures Tiles(Runs(s, start), start, |s|)
    decreases |s|
  {
    if s != [] {
      var rest := Runs(s[1..], start + 1);
      RunsTile(s[1..], start + 1);
      RunsHead(s[1..], start + 1);
      if rest != [] && rest[0].value == s[0] {
        TileMerged(s, start, rest);
      } else {
        TileSeparate(s, start, rest);
      }
    }
  }

  /** The runs cover `start .. start + n` in order, each beginning where the
   * previous one ends. */
  predicate Tiles<T>(r: seq<Run<T>>, start: nat, n: nat)
  {
    && (r != [] ==> r[|r| - 1].start + r[|r| - 1].count == start + n)
    && (forall k :: 0 <= k < |r| - 1 ==> r[k + 1].start == r[k].start + r[k].count)
  }

  lemma TileMerged<T>(s: seq<T>, start: nat, rest: seq<Run<T>>)
    requires s != [] && rest == Runs(s[1..], start + 1) && Tiles(rest, start + 1, |s| - 1)
    requires rest != [] && rest[0].value == s[0] && rest[0].start == start + 1
    ensures Tiles(Runs(s, start), start, |s|)
  {
    var r := Runs(s, start);
    assert r == [Run(start, rest[0].count + 1, s[0])] + rest[1..];
    forall k | 0 <= k < |r| - 1
      ensures r[k + 1].start == r[k].start + r[k].count
    {
      assert r[k + 1] == rest[k + 1];
      assert k > 0 ==> r[k] == rest[k];
    }
    assert |r| > 1 ==> r[|r| - 1] == rest[|rest| - 1];
  }

  lemma TileSeparate<T>(s: seq<T>, start: nat, rest: seq<Run<T>>)
    requires s != [] && rest == Runs(s[1..], start + 1) && Tiles(rest, start + 1, |s| - 1)
    requires !(rest != [] && rest[0].value == s[0]) && (rest != [] ==> rest[0].start == start + 1)
    ensures Tiles(Runs(s, start), start, |s|)
  {
    var r := Runs(s, start);
    assert r == [Run(start, 1, s[0])] + rest;
    forall k | 0 <= k < |r| - 1
      ensures r[k + 1].start == r[k].start + r[k].count
    {
      assert r[k + 1] == rest[k];
      assert k > 0 ==> r[k] == rest[k - 1];
    }
    assert |r| > 1 ==> r[|r| - 1] == rest[|rest| - 1];
  }

  lemma RunsExample()
    ensures Runs([Some(1), Some(1), None, None, None, Some(1)], 0) ==
      [Run(0, 2, Some(1)), Run(2, 3, None), Run(5, 1, Some(1))]
  {
  }
}
