/** The opcode assigner of the instruction-set design script
 * (`new_instruction_set.py`, `assign_opcodes`): a Huffman construction in
 * which every instruction starts as a leaf weighted by the bits its
 * arguments use, the two smallest items are merged until one is left, and
 * an instruction's opcode is the path of merges down to it, followed by
 * one `x` for each argument bit that lives inside the opcode.
 *
 * The instruction table is a sequence in the dictionary's order. The heap
 * is a sequence from which the loop removes a minimal item (one no other
 * item is smaller than) by a scan; see `PopMin`. */
module OpcodeHuffman {
  import opened Wrappers

  /** The capability of an argument: `opcode` (its bits extend the
   * opcode) or a set of capability bits. */
  datatype Capability = OpcodeArg | Caps(mask: nat)
  datatype ArgSpec = ArgSpec(bits: nat, capability: Capability)
  datatype Instruction = Instruction(name: string, args: seq<ArgSpec>)

  /** `HuffmanItem`: the bits used, as the widest member needs them, the
   * range of instruction indices merged into it, and each member's code. */
  datatype HuffmanItem = HuffmanItem(
    totalUsedBits: nat,
    opcodeUsedBits: nat,
    minId: int,
    maxId: int,
    instructions: map<string, string>)

  // ------------------------------------------------------------ order

  /** `HuffmanItem.__lt__`: fewer total bits first, then fewer opcode
   * bits, then an id range wholly before the other's. */
  predicate Less(a: HuffmanItem, b: HuffmanItem)
  {
    if a.totalUsedBits != b.totalUsedBits then a.totalUsedBits < b.totalUsedBits
    else if a.opcodeUsedBits != b.opcodeUsedBits then a.opcodeUsedBits < b.opcodeUsedBits
    else a.maxId < b.minId
  }

  /** `HuffmanItem.__gt__`. */
  predicate Greater(a: HuffmanItem, b: HuffmanItem)
  {
    if a.totalUsedBits != b.totalUsedBits then a.totalUsedBits > b.totalUsedBits
    else if a.opcodeUsedBits != b.opcodeUsedBits then a.opcodeUsedBits > b.opcodeUsedBits
    else a.minId > b.maxId
  }

  /** `__gt__` is `__lt__` with the operands swapped. */
  lemma GreaterIsSwappedLess(a: HuffmanItem, b: HuffmanItem)
    ensures Greater(a, b) <==> Less(b, a)
  {
  }

  /** On items whose id range is not empty the order is a strict partial
   * order (two items with equal bits and overlapping ranges are
   * unordered). */
  lemma LessIsStrictOrder(a: HuffmanItem, b: HuffmanItem, c: HuffmanItem)
    requires a.minId <= a.maxId && b.minId <= b.maxId && c.minId <= c.maxId
    ensures !Less(a, a)
    ensures Less(a, b) ==> !Less(b, a)
    ensures Less(a, b) && Less(b, c) ==> Less(a, c)
  {
  }

  // ------------------------------------------------------------ items

  function Xs(n: nat): (s: string)
    ensures |s| == n && forall i :: 0 <= i < n ==> s[i] == 'x'
  {
    seq(n, _ => 'x')
  }

  /** The bits all arguments use. */
  function TotalBits(args: seq<ArgSpec>): nat
  {
    if args == [] then 0 else args[0].bits + TotalBits(args[1..])
  }

  /** The bits of the arguments that extend the opcode. */
  function OpcodeBits(args: seq<ArgSpec>): (n: nat)
    ensures n <= TotalBits(args)
  {
    if args == [] then 0
    else (if args[0].capability.OpcodeArg? then args[0].bits else 0) + OpcodeBits(args[1..])
  }

  /** The item the first loop makes for instruction `i`. */
  function Leaf(i: int, instr: Instruction): (x: HuffmanItem)
  {
    HuffmanItem(TotalBits(instr.args), OpcodeBits(instr.args), i, i, map[instr.name := Xs(OpcodeBits(instr.args))])
  }

  /** `HuffmanItem.merge`: `a`'s codes behind a `0`, `b`'s behind a `1`
   * (`b` winning a name both hold), one more bit of each kind than the
   * wider of the two, and the union of the id ranges. */
  function Merge(a: HuffmanItem, b: HuffmanItem): (m: HuffmanItem)
  {
    HuffmanItem(
      Max(a.totalUsedBits, b.totalUsedBits) + 1,
      Max(a.opcodeUsedBits, b.opcodeUsedBits) + 1,
      if a.minId < b.minId then a.minId else b.minId,
      if a.maxId < b.maxId then b.maxId else a.maxId,
      map n | n in a.instructions.Keys + b.instructions.Keys ::
        if n in b.instructions then "1" + b.instructions[n] else "0" + a.instructions[n])
  }

  function Max(a: nat, b: nat): nat
  {
    if a < b then b else a
  }

  /** What merging does to the members: both sides' instructions, each
   * code one bit longer, `0` for the left and `1` for the right. */
  lemma MergeCodes(a: HuffmanItem, b: HuffmanItem)
    ensures Merge(a, b).instructions.Keys == a.instructions.Keys + b.instructions.Keys
    ensures forall n :: n in b.instructions ==> Merge(a, b).instructions[n] == "1" + b.instructions[n]
    ensures forall n :: n in a.instructions && n !in b.instructions ==> Merge(a, b).instructions[n] == "0" + a.instructions[n]
    ensures Merge(a, b).totalUsedBits > a.totalUsedBits && Merge(a, b).totalUsedBits > b.totalUsedBits
    ensures Merge(a, b).minId <= a.minId && Merge(a, b).minId <= b.minId
    ensures Merge(a, b).maxId >= a.maxId && Merge(a, b).maxId >= b.maxId
  {
  }

  // --------------------------------------------------- code invariants

  predicate Binary(s: string)
  {
    forall i :: 0 <= i < |s| ==> s[i] == '0' || s[i] == '1'
  }

  /** Two codes no instruction word can match both of: they differ, at a
   * position where neither has an argument bit. */
  predicate Apart(c: string, d: string)
  {
    exists i :: 0 <= i < |c| && i < |d| && c[i] != d[i] && c[i] != 'x' && d[i] != 'x'
  }

  /** A code that is a path of merge bits followed by one `x` for each of
   * `e` opcode argument bits. */
  predicate ShapedCode(code: string, e: nat)
  {
    |code| >= e && Binary(code[..|code| - e]) && code[|code| - e..] == Xs(e)
  }

  /** Every code has the shape its instruction's opcode argument bits
   * (`extra`) call for. */
  predicate Shaped(codes: map<string, string>, extra: map<string, nat>)
  {
    forall n :: n in codes ==> n in extra && ShapedCode(codes[n], extra[n])
  }

  predicate Bounded(codes: map<string, string>, limit: nat)
  {
    forall n :: n in codes ==> |codes[n]| <= limit
  }

  /** Every two codes are apart. */
  predicate Separated(codes: map<string, string>)
  {
    forall n, m :: n in codes && m in codes && n != m ==> Apart(codes[n], codes[m])
  }

  /** The codes of one item tell its instructions apart and fit the opcode
   * bits it claims, and its range is not empty. */
  predicate Good(x: HuffmanItem, extra: map<string, nat>)
  {
    x.minId <= x.maxId && x.opcodeUsedBits <= x.totalUsedBits &&
    Shaped(x.instructions, extra) && Bounded(x.instructions, x.opcodeUsedBits) && Separated(x.instructions)
  }

  lemma LeafGood(i: int, instr: Instruction, extra: map<string, nat>)
    requires instr.name in extra && extra[instr.name] == OpcodeBits(instr.args)
    ensures Good(Leaf(i, instr), extra)
  {
    var e := OpcodeBits(instr.args);
    var code := Xs(e);
    assert code[..0] == [] && code[0..] == code;
    assert ShapedCode(code, e);
    var x := Leaf(i, instr);
    assert x.instructions == map[instr.name := code];
    assert Shaped(x.instructions, extra);
    assert Bounded(x.instructions, x.opcodeUsedBits);
    assert Separated(x.instructions) by {
      assert forall n :: n in x.instructions ==> n == instr.name;
    }
  }

  /** Prepending a merge bit keeps a code's shape. */
  lemma PrependShaped(bit: char, code: string, e: nat)
    requires bit == '0' || bit == '1'
    requires ShapedCode(code, e)
    ensures ShapedCode([bit] + code, e)
  {
    var c := [bit] + code;
    assert c[|c| - e..] == code[|code| - e..];
    assert c[..|c| - e] == [bit] + code[..|code| - e];
  }

  /** Merging keeps every code's shape and the claimed opcode bits. */
  lemma MergeShaped(a: HuffmanItem, b: HuffmanItem, extra: map<string, nat>)
    requires Shaped(a.instructions, extra) && Shaped(b.instructions, extra)
    requires Bounded(a.instructions, a.opcodeUsedBits) && Bounded(b.instructions, b.opcodeUsedBits)
    ensures Shaped(Merge(a, b).instructions, extra)
    ensures Bounded(Merge(a, b).instructions, Merge(a, b).opcodeUsedBits)
  {
    var m := Merge(a, b);
    MergeCodes(a, b);
    forall n | n in m.instructions
      ensures n in extra && ShapedCode(m.instructions[n], extra[n])
      ensures |m.instructions[n]| <= m.opcodeUsedBits
    {
      if n in b.instructions {
        PrependShaped('1', b.instructions[n], extra[n]);
      } else {
        PrependShaped('0', a.instructions[n], extra[n]);
      }
    }
  }

  /** A merge bit in front keeps two codes apart. */
  lemma PrependApart(bit: char, c: string, d: string)
    requires Apart(c, d)
    ensures Apart([bit] + c, [bit] + d)
  {
    var i :| 0 <= i < |c| && i < |d| && c[i] != d[i] && c[i] != 'x' && d[i] != 'x';
    assert ([bit] + c)[i + 1] == c[i] && ([bit] + d)[i + 1] == d[i];
  }

  /** Codes from different sides of a merge differ in their first bit,
   * codes from one side still differ where they did. */
  lemma MergeSeparated(a: HuffmanItem, b: HuffmanItem)
    requires Separated(a.instructions) && Separated(b.instructions) && a.instructions.Keys !! b.instructions.Keys
    ensures Separated(Merge(a, b).instructions)
  {
    var m := Merge(a, b);
    MergeCodes(a, b);
    forall n, k | n in m.instructions && k in m.instructions && n != k
      ensures Apart(m.instructions[n], m.instructions[k])
    {
      var cn, ck := m.instructions[n], m.instructions[k];
      if n in b.instructions && k in b.instructions {
        PrependApart('1', b.instructions[n], b.instructions[k]);
      } else if n !in b.instructions && k !in b.instructions {
        PrependApart('0', a.instructions[n], a.instructions[k]);
      } else {
        assert cn[0] != ck[0] && cn[0] != 'x' && ck[0] != 'x';
      }
    }
  }

  /** Merging two good items with no instruction in common gives a good
   * item. */
  lemma MergeGood(a: HuffmanItem, b: HuffmanItem, extra: map<string, nat>)
    requires Good(a, extra) && Good(b, extra) && a.instructions.Keys !! b.instructions.Keys
    ensures Good(Merge(a, b), extra)
  {
    MergeShaped(a, b, extra);
    MergeSeparated(a, b);
  }

  // ------------------------------------------------------------- heap

  /** The instructions of all items. */
  function KeysOf(heap: seq<HuffmanItem>): set<string>
  {
    if heap == [] then {} else KeysOf(heap[..|heap| - 1]) + heap[|heap| - 1].instructions.Keys
  }

  lemma {:induction false} KeysOfConcat(s: seq<HuffmanItem>, t: seq<HuffmanItem>)
    ensures KeysOf(s + t) == KeysOf(s) + KeysOf(t)
    decreases |t|
  {
    if t == [] {
      assert s + t == s;
    } else {
      var u := t[..|t| - 1];
      assert (s + t)[..|s + t| - 1] == s + u;
      assert (s + t)[|s + t| - 1] == t[|t| - 1];
      KeysOfConcat(s, u);
      assert KeysOf(s + t) == KeysOf(s + u) + t[|t| - 1].instructions.Keys;
    }
  }

  predicate AllGood(heap: seq<HuffmanItem>, extra: map<string, nat>)
  {
    forall i :: 0 <= i < |heap| ==> Good(heap[i], extra)
  }

  predicate Disjoint(heap: seq<HuffmanItem>)
  {
    forall i, j :: 0 <= i < |heap| && 0 <= j < |heap| && i != j ==> heap[i].instructions.Keys !! heap[j].instructions.Keys
  }

  /** The items share no instruction and are all good. */
  predicate Partition(heap: seq<HuffmanItem>, extra: map<string, nat>)
  {
    AllGood(heap, extra) && Disjoint(heap)
  }

  /** No item holds an instruction of `keys`. */
  predicate DisjointFrom(heap: seq<HuffmanItem>, keys: set<string>)
  {
    forall j :: 0 <= j < |heap| ==> heap[j].instructions.Keys !! keys
  }

  /** No item holds one of `keys` exactly when their union does not. */
  lemma {:induction false} DisjointFromKeys(heap: seq<HuffmanItem>, keys: set<string>)
    ensures DisjointFrom(heap, keys) <==> KeysOf(heap) !! keys
  {
    if heap != [] {
      var init := heap[..|heap| - 1];
      DisjointFromKeys(init, keys);
      assert forall j :: 0 <= j < |init| ==> init[j] == heap[j];
    }
  }

  lemma PartitionPush(heap: seq<HuffmanItem>, x: HuffmanItem, extra: map<string, nat>)
    requires Partition(heap, extra) && Good(x, extra)
    requires DisjointFrom(heap, x.instructions.Keys)
    ensures Partition(heap + [x], extra)
  {
    var h := heap + [x];
    assert forall j :: 0 <= j < |heap| ==> h[j] == heap[j];
  }

  /** The index of a minimal item: none is `Less` than it. */
  method MinIndex(heap: seq<HuffmanItem>) returns (m: nat)
    requires |heap| > 0 && forall i :: 0 <= i < |heap| ==> heap[i].minId <= heap[i].maxId
    ensures m < |heap| && forall k :: 0 <= k < |heap| ==> !Less(heap[k], heap[m])
  {
    m := 0;
    for j := 1 to |heap|
      invariant m < j && forall k :: 0 <= k < j ==> !Less(heap[k], heap[m])
    {
      if Less(heap[j], heap[m]) {
        forall k | 0 <= k < j
          ensures !Less(heap[k], heap[j])
        {
          LessIsStrictOrder(heap[k], heap[j], heap[m]);
        }
        LessIsStrictOrder(heap[j], heap[j], heap[j]);
        m := j;
      }
    }
  }

  /** `heapq.heappop`: a minimal item out, the rest kept. `__lt__` is only
   * a partial order: two items with equal bits whose instruction ranges
   * overlap are unordered either way. `heapq`'s binary heap compares only
   * along its tree paths, so with such items it can pop one that is not
   * minimal among all of them. This scan over the whole list always
   * returns a minimal one, the first it meets. */
  method PopMin(heap: seq<HuffmanItem>, ghost extra: map<string, nat>) returns (x: HuffmanItem, rest: seq<HuffmanItem>)
    requires |heap| > 0 && Partition(heap, extra)
    ensures x in heap && forall y :: y in heap ==> !Less(y, x)
    ensures |rest| == |heap| - 1 && Partition(rest, extra) && Good(x, extra)
    ensures DisjointFrom(rest, x.instructions.Keys)
    ensures KeysOf(heap) == KeysOf(rest) + x.instructions.Keys
  {
    var m := MinIndex(heap);
    x := heap[m];
    rest := heap[..m] + heap[m + 1..];
    RemoveKeys(heap, m, heap[..m], heap[m + 1..]);
    RemovePartition(heap, m, rest, extra);
  }

  lemma RemoveKeys(heap: seq<HuffmanItem>, m: nat, a: seq<HuffmanItem>, b: seq<HuffmanItem>)
    requires m < |heap| && a == heap[..m] && b == heap[m + 1..]
    ensures KeysOf(heap) == KeysOf(a + b) + heap[m].instructions.Keys
  {
    var x := heap[m];
    assert heap == (a + [x]) + b;
    KeysOfConcat(a + [x], b);
    KeysOfConcat(a, [x]);
    KeysOfConcat(a, b);
    KeysOfSingle(x);
  }

  lemma KeysOfSingle(x: HuffmanItem)
    ensures KeysOf([x]) == x.instructions.Keys
  {
    assert [x][..0] == [];
  }

  lemma RemovePartition(heap: seq<HuffmanItem>, m: nat, rest: seq<HuffmanItem>, extra: map<string, nat>)
    requires m < |heap| && Partition(heap, extra) && rest == heap[..m] + heap[m + 1..]
    ensures Partition(rest, extra)
    ensures DisjointFrom(rest, heap[m].instructions.Keys)
  {
    assert forall j :: 0 <= j < m ==> rest[j] == heap[j];
    assert forall j :: m <= j < |rest| ==> rest[j] == heap[j + 1];
    assert AllGood(rest, extra);
    assert Disjoint(rest);
  }

  function Names(instrs: seq<Instruction>): (names: set<string>)
    ensures forall n :: n in names <==> exists i :: 0 <= i < |instrs| && instrs[i].name == n
  {
    set i | 0 <= i < |instrs| :: instrs[i].name
  }

  /** Each instruction's number of opcode argument bits, by name. */
  function ExtraBits(instrs: seq<Instruction>): (extra: map<string, nat>)
    ensures forall i :: 0 <= i < |instrs| ==> instrs[i].name in extra
    ensures forall n :: n in extra ==> exists i :: 0 <= i < |instrs| && instrs[i].name == n && extra[n] == OpcodeBits(instrs[i].args)
    decreases |instrs|
  {
    if instrs == [] then map[]
    else
      var rest := ExtraBits(instrs[..|instrs| - 1]);
      var last := instrs[|instrs| - 1];
      assert forall i :: 0 <= i < |instrs| - 1 ==> instrs[..|instrs| - 1][i] == instrs[i];
      rest[last.name := OpcodeBits(last.args)]
  }

  predicate DistinctNames(instrs: seq<Instruction>)
  {
    forall i, j :: 0 <= i < j < |instrs| ==> instrs[i].name != instrs[j].name
  }

  /** With distinct names, the map holds each instruction's own bits. */
  lemma ExtraBitsFit(instrs: seq<Instruction>)
    requires DistinctNames(instrs)
    ensures ExtraFits(instrs, ExtraBits(instrs))
  {
    forall i | 0 <= i < |instrs|
      ensures ExtraBits(instrs)[instrs[i].name] == OpcodeBits(instrs[i].args)
    {
      var n := instrs[i].name;
      var k :| 0 <= k < |instrs| && instrs[k].name == n && ExtraBits(instrs)[n] == OpcodeBits(instrs[k].args);
    }
  }

  /** `assign_opcodes` without the cosmetic pairs: one leaf per
   * instruction, then merges of two minimal items until one is left; the
   * first instruction is kept on the `0` side of each merge and the last on
   * the `1` side where possible. An empty table has no item left, and
   * Python's `heap[0]` fails: `None`. The codes name every instruction,
   * tell every two apart, and end in one `x` per opcode argument bit. */
  method AssignOpcodes(instrs: seq<Instruction>) returns (r: Option<map<string, string>>)
    requires DistinctNames(instrs)
    ensures r.None? <==> instrs == []
    ensures r.Some? ==> r.value.Keys == Names(instrs)
    ensures r.Some? ==> Shaped(r.value, ExtraBits(instrs))
    ensures r.Some? ==> Separated(r.value)
  {
    if instrs == [] {
      return None;
    }
    var extra := ExtraBits(instrs);
    ExtraBitsFit(instrs);
    var heap := Leaves(instrs, extra);
    assert instrs[..|instrs|] == instrs;
    var root := MergeAll(heap, extra, instrs[0].name, instrs[|instrs| - 1].name);
    r := Some(root.instructions);
  }

  /** The second loop: merges until one item is left, which holds every
   * instruction of the items it started from. */
  method MergeAll(leaves: seq<HuffmanItem>, ghost extra: map<string, nat>, first: string, last: string) returns (root: HuffmanItem)
    requires |leaves| >= 1 && Partition(leaves, extra)
    ensures Good(root, extra) && root.instructions.Keys == KeysOf(leaves)
  {
    var heap := leaves;
    while |heap| > 1
      invariant |heap| >= 1 && Partition(heap, extra) && KeysOf(heap) == KeysOf(leaves)
      decreases |heap|
    {
      heap := MergeStep(heap, extra, first, last);
    }
    root := heap[0];
    assert heap == [root];
    KeysOfSingle(root);
  }

  /** One turn of the merge loop: the two minimal items out, the first
   * taken as the `0` side unless that would put the first instruction on
   * the `1` side or the last on the `0` side, their merge pushed. */
  method MergeStep(heap: seq<HuffmanItem>, ghost extra: map<string, nat>, first: string, last: string) returns (next: seq<HuffmanItem>)
    requires |heap| > 1 && Partition(heap, extra)
    ensures |next| == |heap| - 1 && Partition(next, extra) && KeysOf(next) == KeysOf(heap)
  {
    var left, rest := PopMin(heap, extra);
    var right, rest2 := PopMin(rest, extra);
    DisjointFromKeys(rest, left.instructions.Keys);
    DisjointFromKeys(rest2, right.instructions.Keys);
    if first in right.instructions {
      left, right := right, left;
    } else if last in left.instructions {
      left, right := right, left;
    }
    var merged := Merge(left, right);
    MergeGood(left, right, extra);
    MergeCodes(left, right);
    DisjointFromKeys(rest2, merged.instructions.Keys);
    PartitionPush(rest2, merged, extra);
    next := rest2 + [merged];
    assert next[..|rest2|] == rest2;
  }

  /** The first loop: a leaf per instruction, its index as its id. */
  method Leaves(instrs: seq<Instruction>, extra: map<string, nat>) returns (heap: seq<HuffmanItem>)
    requires DistinctNames(instrs) && ExtraFits(instrs, extra)
    ensures |heap| == |instrs| && forall i :: 0 <= i < |instrs| ==> heap[i] == Leaf(i, instrs[i])
    ensures Partition(heap, extra) && KeysOf(heap) == Names(instrs[..|instrs|])
  {
    heap := [];
    for i := 0 to |instrs|
      invariant |heap| == i && forall k :: 0 <= k < i ==> heap[k] == Leaf(k, instrs[k])
      invariant Partition(heap, extra) && KeysOf(heap) == Names(instrs[..i])
    {
      PushLeaf(instrs, i, heap, extra);
      heap := heap + [Leaf(i, instrs[i])];
    }
  }

  /** Pushing the next leaf keeps the items a partition of the
   * instructions seen so far. */
  lemma PushLeaf(instrs: seq<Instruction>, i: nat, heap: seq<HuffmanItem>, extra: map<string, nat>)
    requires DistinctNames(instrs) && ExtraFits(instrs, extra) && i < |instrs|
    requires Partition(heap, extra) && KeysOf(heap) == Names(instrs[..i])
    ensures Partition(heap + [Leaf(i, instrs[i])], extra)
    ensures KeysOf(heap + [Leaf(i, instrs[i])]) == Names(instrs[..i + 1])
  {
    var leaf := Leaf(i, instrs[i]);
    NamesPush(instrs, i);
    assert (heap + [leaf])[..|heap|] == heap;
    assert KeysOf(heap + [leaf]) == KeysOf(heap) + {instrs[i].name};
    PushLeafPartition(instrs, i, heap, extra);
  }

  lemma PushLeafPartition(instrs: seq<Instruction>, i: nat, heap: seq<HuffmanItem>, extra: map<string, nat>)
    requires DistinctNames(instrs) && ExtraFits(instrs, extra) && i < |instrs|
    requires Partition(heap, extra) && KeysOf(heap) == Names(instrs[..i])
    ensures Partition(heap + [Leaf(i, instrs[i])], extra)
  {
    var leaf := Leaf(i, instrs[i]);
    LeafGood(i, instrs[i], extra);
    NewName(instrs, i);
    DisjointFromKeys(heap, leaf.instructions.Keys);
    PartitionPush(heap, leaf, extra);
  }

  lemma NewName(instrs: seq<Instruction>, i: nat)
    requires DistinctNames(instrs) && i < |instrs|
    ensures instrs[i].name !in Names(instrs[..i])
  {
    var init := instrs[..i];
    forall k | 0 <= k < |init|
      ensures init[k].name != instrs[i].name
    {
      assert init[k] == instrs[k];
    }
  }

  /** `extra` gives each instruction's opcode argument bits. */
  predicate ExtraFits(instrs: seq<Instruction>, extra: map<string, nat>)
  {
    forall i :: 0 <= i < |instrs| ==> instrs[i].name in extra && extra[instrs[i].name] == OpcodeBits(instrs[i].args)
  }

  lemma NamesPush(instrs: seq<Instruction>, i: nat)
    requires i < |instrs|
    ensures Names(instrs[..i + 1]) == Names(instrs[..i]) + {instrs[i].name}
  {
    assert forall k :: 0 <= k < i ==> instrs[..i + 1][k] == instrs[..i][k];
    assert instrs[..i + 1][i] == instrs[i];
  }
}
