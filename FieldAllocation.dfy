/** The argument-field search of the instruction-set design script
 * (`new_instruction_set.py`): the contiguous masks a field of `n` bits may
 * take inside a mask (`_field_bits`), the placements of an instruction's
 * argument fields below its opcode (`fit_intervals` in
 * `_instruction_encodings`), and the cost of an allocation, split in two
 * parts so that the first can be computed once
 * (`_field_allocation_cost_part1` and `_part2`).
 *
 * Python dictionaries keep insertion order; the dictionary from masks to
 * capabilities is an association list in that order (`Fields`). */
module FieldAllocation {
  import opened Arith
  import opened PyBits
  import OpcodeHuffman

  /** A contiguous field of `bits` bits starting at bit `offset`. */
  function FieldMask(bits: nat, offset: nat): nat
  {
    Ones(bits) * Pow2(offset)
  }

  // ------------------------------------------------------- _field_bits

  /** `_field_bits(mask, n)`: for each `i` in `range(16 - n)`, the field
   * of `n` bits at `i` unless it has a bit outside `mask`. */
  function FieldBits(mask: nat, n: nat): seq<nat>
  {
    FieldBitsFrom(mask, n, 0)
  }

  function FieldBitsFrom(mask: nat, n: nat, i: nat): seq<nat>
    decreases 16 - i
  {
    if i + n >= 16 then []
    else (if AndNot(FieldMask(n, i), mask) == 0 then [FieldMask(n, i)] else []) + FieldBitsFrom(mask, n, i + 1)
  }

  lemma {:induction false} FieldBitsFromExactly(mask: nat, n: nat, i0: nat, x: nat)
    ensures x in FieldBitsFrom(mask, n, i0) <==>
      exists i :: i0 <= i && i + n < 16 && x == FieldMask(n, i) && AndNot(x, mask) == 0
    decreases 16 - i0
  {
    if i0 + n < 16 {
      FieldBitsFromExactly(mask, n, i0 + 1, x);
      var f := FieldMask(n, i0);
      var here: seq<nat> := if AndNot(f, mask) == 0 then [f] else [];
      var later := FieldBitsFrom(mask, n, i0 + 1);
      assert FieldBitsFrom(mask, n, i0) == here + later;
      if x in here {
        assert i0 <= i0 && i0 + n < 16 && x == FieldMask(n, i0) && AndNot(x, mask) == 0;
      } else if x in later {
        var i :| i0 + 1 <= i && i + n < 16 && x == FieldMask(n, i) && AndNot(x, mask) == 0;
        assert i0 <= i;
      }
      if exists i :: i0 <= i && i + n < 16 && x == FieldMask(n, i) && AndNot(x, mask) == 0 {
        var i :| i0 <= i && i + n < 16 && x == FieldMask(n, i) && AndNot(x, mask) == 0;
        if i == i0 {
          assert x in here;
        } else {
          assert i0 + 1 <= i;
          assert x in later;
        }
      }
    }
  }

  /** The masks `_field_bits` yields are exactly the `n`-bit fields that
   * start below bit `16 - n` and have every bit inside `mask`; each has
   * `n` bits, and they are its bits `i` to `i + n - 1`. */
  lemma FieldBitsExactly(mask: nat, n: nat, x: nat)
    ensures x in FieldBits(mask, n) <==>
      exists i :: 0 <= i && i + n < 16 && x == FieldMask(n, i) && forall k: nat :: Bit(x, k) ==> Bit(mask, k)
    ensures x in FieldBits(mask, n) ==> Popcount(x) == n
    ensures forall i: nat, k: nat :: x == FieldMask(n, i) ==> (Bit(x, k) <==> i <= k < i + n)
  {
    FieldBitsFromExactly(mask, n, 0, x);
    AndNotZero(x, mask);
    if x in FieldBits(mask, n) {
      var i :| 0 <= i && i + n < 16 && x == FieldMask(n, i) && AndNot(x, mask) == 0;
      PopcountOnesShifted(n, i);
    }
    forall i: nat, k: nat | x == FieldMask(n, i)
      ensures Bit(x, k) <==> i <= k < i + n
    {
      BitOfField(n, i, k);
    }
  }

  // ----------------------------------------------------- fit_intervals

  /** An argument that is not part of the opcode: its name, width and
   * capability bits. */
  datatype Arg = Arg(name: string, bits: nat, caps: nat)

  /** One placed field: the instruction and argument it belongs to, its
   * mask and its capabilities. */
  datatype Placed = Placed(instr: string, arg: string, mask: nat, caps: nat)

  function Place(instr: string, arg: Arg, offset: nat): Placed
  {
    Placed(instr, arg.name, FieldMask(arg.bits, offset), arg.caps)
  }

  function ArgBits(args: seq<Arg>): nat
  {
    if args == [] then 0 else args[0].bits + ArgBits(args[1..])
  }

  /** `fit_intervals(remaining_args, starting_at, wiggle_room_available,
   * accumulator)`: every way of leaving a gap of up to the remaining
   * wiggle room before each field in turn, smallest gaps first. */
  function FitIntervals(instr: string, args: seq<Arg>, start: nat, wiggle: int, acc: seq<Placed>): seq<seq<Placed>>
    decreases |args|, 1, 0
  {
    if args == [] then [acc] else FitGaps(instr, args, start, wiggle, acc, 0)
  }

  /** The loop `for gap in range(wiggle_room_available + 1)`, from `gap`
   * on. */
  function FitGaps(instr: string, args: seq<Arg>, start: nat, wiggle: int, acc: seq<Placed>, gap: nat): seq<seq<Placed>>
    requires args != []
    decreases |args|, 0, wiggle + 1 - gap
  {
    if gap > wiggle then []
    else FitAt(instr, args, start, wiggle, acc, gap) + FitGaps(instr, args, start, wiggle, acc, gap + 1)
  }

  /** The placements that leave `gap` bits before the first field. */
  function FitAt(instr: string, args: seq<Arg>, start: nat, wiggle: int, acc: seq<Placed>, gap: nat): seq<seq<Placed>>
    requires args != []
    decreases |args|, 0, 0
  {
    FitIntervals(instr, args[1..], start + args[0].bits + gap, wiggle - gap, acc + [Place(instr, args[0], start + gap)])
  }

  /** Fields at `offsets`, in the arguments' order: the first at or
   * after `start`, each ending at or before the next begins, the last
   * ending at or before `end`. */
  predicate Layout(args: seq<Arg>, offsets: seq<nat>, start: nat, end: int)
  {
    |offsets| == |args| &&
    (|args| > 0 ==> start <= offsets[0] && offsets[|args| - 1] + args[|args| - 1].bits <= end) &&
    (forall k :: 0 <= k < |args| - 1 ==> offsets[k] + args[k].bits <= offsets[k + 1])
  }

  function Places(instr: string, args: seq<Arg>, offsets: seq<nat>): (ps: seq<Placed>)
    requires |offsets| == |args|
    ensures |ps| == |args|
  {
    seq(|args|, k requires 0 <= k < |args| => Place(instr, args[k], offsets[k]))
  }

  /** A placement with gap `g` is among those the gap loop yields from
   * `gap` on. */
  lemma {:induction false} FitGapsIntro(instr: string, args: seq<Arg>, start: nat, wiggle: int, acc: seq<Placed>, gap: nat, g: nat, a: seq<Placed>)
    requires args != [] && gap <= g <= wiggle && a in FitAt(instr, args, start, wiggle, acc, g)
    ensures a in FitGaps(instr, args, start, wiggle, acc, gap)
    decreases g - gap
  {
    if gap < g {
      FitGapsIntro(instr, args, start, wiggle, acc, gap + 1, g, a);
    }
  }

  /** Whatever the gap loop yields from `gap` on has some gap `g`. */
  lemma {:induction false} FitGapsElim(instr: string, args: seq<Arg>, start: nat, wiggle: int, acc: seq<Placed>, gap: nat, a: seq<Placed>) returns (g: nat)
    requires args != [] && a in FitGaps(instr, args, start, wiggle, acc, gap)
    ensures gap <= g <= wiggle && a in FitAt(instr, args, start, wiggle, acc, g)
    decreases wiggle + 1 - gap
  {
    if a in FitAt(instr, args, start, wiggle, acc, gap) {
      g := gap;
    } else {
      g := FitGapsElim(instr, args, start, wiggle, acc, gap + 1, a);
    }
  }

  lemma {:induction false} LayoutTail(args: seq<Arg>, offsets: seq<nat>, start: nat, end: int)
    requires args != [] && Layout(args, offsets, start, end)
    ensures Layout(args[1..], offsets[1..], offsets[0] + args[0].bits, end)
    ensures offsets[0] + ArgBits(args) <= end
    decreases |args|
  {
    var rest := args[1..];
    assert forall k :: 0 <= k < |rest| ==> rest[k] == args[k + 1] && offsets[1..][k] == offsets[k + 1];
    if |args| > 1 {
      assert Layout(rest, offsets[1..], offsets[0] + args[0].bits, end);
      LayoutTail(rest, offsets[1..], offsets[0] + args[0].bits, end);
    }
  }

  lemma LayoutCons(args: seq<Arg>, offsets: seq<nat>, start: nat, end: int, first: nat)
    requires args != [] && start <= first && first + args[0].bits <= end
    requires Layout(args[1..], offsets, first + args[0].bits, end)
    ensures Layout(args, [first] + offsets, start, end)
  {
    var o := [first] + offsets;
    assert forall k :: 1 <= k < |args| ==> args[k] == args[1..][k - 1] && o[k] == offsets[k - 1];
  }

  /** Every field of a layout lies between `start` and `end`, and the
   * fields fill at most the room: `start + ArgBits(args) <= end`. */
  lemma {:induction false} LayoutInside(args: seq<Arg>, offsets: seq<nat>, start: nat, end: int)
    requires Layout(args, offsets, start, end)
    ensures forall k :: 0 <= k < |args| ==> start <= offsets[k] && offsets[k] + args[k].bits <= end
    ensures args != [] ==> start + ArgBits(args) <= end
    decreases |args|
  {
    if args != [] {
      LayoutTail(args, offsets, start, end);
      LayoutInside(args[1..], offsets[1..], offsets[0] + args[0].bits, end);
      forall k | 1 <= k < |args|
        ensures start <= offsets[k] && offsets[k] + args[k].bits <= end
      {
        assert args[1..][k - 1] == args[k] && offsets[1..][k - 1] == offsets[k];
      }
    }
  }

  lemma PlacesCons(instr: string, args: seq<Arg>, offsets: seq<nat>, acc: seq<Placed>)
    requires args != [] && |offsets| == |args|
    ensures acc + Places(instr, args, offsets) ==
      (acc + [Place(instr, args[0], offsets[0])]) + Places(instr, args[1..], offsets[1..])
  {
    var ps := Places(instr, args, offsets);
    assert ps == [Place(instr, args[0], offsets[0])] + Places(instr, args[1..], offsets[1..]);
  }

  /** Every placement `fit_intervals` yields puts the fields in order,
   * without overlap, inside `start + ArgBits(args) + wiggle`. */
  lemma {:induction false} FitSound(instr: string, args: seq<Arg>, start: nat, wiggle: int, acc: seq<Placed>, a: seq<Placed>)
    requires a in FitIntervals(instr, args, start, wiggle, acc)
    ensures exists offsets :: Layout(args, offsets, start, start + ArgBits(args) + wiggle) && a == acc + Places(instr, args, offsets)
    decreases |args|
  {
    if args == [] {
      assert Layout(args, [], start, start + wiggle) && a == acc + Places(instr, args, []);
    } else {
      var g := FitGapsElim(instr, args, start, wiggle, acc, 0, a);
      var first := start + g;
      var acc' := acc + [Place(instr, args[0], first)];
      FitSound(instr, args[1..], first + args[0].bits, wiggle - g, acc', a);
      var offsets :| Layout(args[1..], offsets, first + args[0].bits, first + args[0].bits + ArgBits(args[1..]) + wiggle - g) &&
        a == acc' + Places(instr, args[1..], offsets);
      var end := start + ArgBits(args) + wiggle;
      LayoutCons(args, offsets, start, end, first);
      PlacesCons(instr, args, [first] + offsets, acc);
      assert ([first] + offsets)[1..] == offsets;
    }
  }

  /** Every ordered, non-overlapping placement inside the room is one that
   * `fit_intervals` yields. */
  lemma {:induction false} FitComplete(instr: string, args: seq<Arg>, start: nat, wiggle: int, acc: seq<Placed>, offsets: seq<nat>)
    requires Layout(args, offsets, start, start + ArgBits(args) + wiggle)
    ensures acc + Places(instr, args, offsets) in FitIntervals(instr, args, start, wiggle, acc)
    decreases |args|
  {
    if args == [] {
      assert acc + Places(instr, args, offsets) == acc;
    } else {
      var end := start + ArgBits(args) + wiggle;
      LayoutTail(args, offsets, start, end);
      var g: nat := offsets[0] - start;
      var acc' := acc + [Place(instr, args[0], start + g)];
      FitComplete(instr, args[1..], start + args[0].bits + g, wiggle - g, acc', offsets[1..]);
      PlacesCons(instr, args, offsets, acc);
      var a := acc + Places(instr, args, offsets);
      assert a in FitAt(instr, args, start, wiggle, acc, g);
      FitGapsIntro(instr, args, start, wiggle, acc, 0, g, a);
    }
  }

  // --------------------------------------------- _instruction_encodings

  /** An argument of an instruction table entry: its name and its width
   * with either `opcode` or capability bits. */
  datatype NamedArg = NamedArg(name: string, spec: OpcodeHuffman.ArgSpec)

  /** The arguments that are not part of the opcode, in order. */
  function FieldArgs(args: seq<NamedArg>): (r: seq<Arg>)
    ensures |r| <= |args|
  {
    if args == [] then []
    else
      (match args[0].spec.capability
        case OpcodeArg => []
        case Caps(mask) => [Arg(args[0].name, args[0].spec.bits, mask)]) + FieldArgs(args[1..])
  }

  /** `_instruction_encodings` for the arguments in their given order:
   * the room left by the opcode and the fields is the wiggle room, and
   * the fields are fitted from bit 0 up. */
  function InstructionEncodings(instr: string, args: seq<NamedArg>, codeLength: nat): seq<seq<Placed>>
  {
    var fields := FieldArgs(args);
    FitIntervals(instr, fields, 0, 16 - codeLength - ArgBits(fields), [])
  }

  /** The encodings of an instruction are exactly the ordered,
   * non-overlapping placements of its fields below the opcode's
   * `codeLength` top bits. */
  lemma EncodingsBelowOpcode(instr: string, args: seq<NamedArg>, codeLength: nat, a: seq<Placed>)
    ensures a in InstructionEncodings(instr, args, codeLength) <==>
      exists offsets :: Layout(FieldArgs(args), offsets, 0, 16 - codeLength) && a == Places(instr, FieldArgs(args), offsets)
  {
    var fields := FieldArgs(args);
    var wiggle := 16 - codeLength - ArgBits(fields);
    if a in InstructionEncodings(instr, args, codeLength) {
      FitSound(instr, fields, 0, wiggle, [], a);
      var offsets :| Layout(fields, offsets, 0, 0 + ArgBits(fields) + wiggle) && a == [] + Places(instr, fields, offsets);
      assert [] + Places(instr, fields, offsets) == Places(instr, fields, offsets);
    }
    if exists offsets :: Layout(fields, offsets, 0, 16 - codeLength) && a == Places(instr, fields, offsets) {
      var offsets :| Layout(fields, offsets, 0, 16 - codeLength) && a == Places(instr, fields, offsets);
      FitComplete(instr, fields, 0, wiggle, [], offsets);
      assert [] + Places(instr, fields, offsets) == a;
    }
  }

  // ------------------------------------------------- allocation cost

  /** The dictionary from field masks to the capabilities wanted of them,
   * in order of first use. */
  type Fields = seq<(nat, nat)>

  predicate DistinctMasks(fields: Fields)
  {
    forall i, j :: 0 <= i < j < |fields| ==> fields[i].0 != fields[j].0
  }

  function Masks(fields: Fields): set<nat>
  {
    set i | 0 <= i < |fields| :: fields[i].0
  }

  /** `all_fields[mask]`, a `defaultdict(int)`: 0 when absent. */
  function Lookup(fields: Fields, mask: nat): nat
  {
    if fields == [] then 0
    else if fields[0].0 == mask then fields[0].1
    else Lookup(fields[1..], mask)
  }

  /** `all_fields[mask] |= caps`. */
  function Upsert(fields: Fields, mask: nat, caps: nat): Fields
  {
    if fields == [] then [(mask, caps)]
    else if fields[0].0 == mask then [(mask, Or(fields[0].1, caps))] + fields[1..]
    else [fields[0]] + Upsert(fields[1..], mask, caps)
  }

  /** The inner loops of both cost parts over every placed argument. */
  function Gather(fields: Fields, ps: seq<Placed>): Fields
    decreases |ps|
  {
    if ps == [] then fields else Gather(Upsert(fields, ps[0].mask, ps[0].caps), ps[1..])
  }

  function Flatten(allocs: seq<seq<Placed>>): seq<Placed>
  {
    if allocs == [] then [] else allocs[0] + Flatten(allocs[1..])
  }

  function SumPopcount(fields: Fields): nat
  {
    if fields == [] then 0 else Popcount(fields[0].1) + SumPopcount(fields[1..])
  }

  /** `_field_allocation_cost_part1`. */
  function CostPart1(allocs: seq<seq<Placed>>): Fields
  {
    Gather([], Flatten(allocs))
  }

  /** `_field_allocation_cost_part2`: the capability bits summed over the
   * fields, and the number of fields. */
  function CostPart2(allocs: seq<seq<Placed>>, fields: Fields): (nat, nat)
  {
    var all := Gather(fields, Flatten(allocs));
    (SumPopcount(all), |all|)
  }

  lemma UpsertSpec(fields: Fields, mask: nat, caps: nat, m: nat)
    requires DistinctMasks(fields)
    ensures DistinctMasks(Upsert(fields, mask, caps))
    ensures Masks(Upsert(fields, mask, caps)) == Masks(fields) + {mask}
    ensures Lookup(Upsert(fields, mask, caps), m) == if m == mask then Or(Lookup(fields, m), caps) else Lookup(fields, m)
  {
    UpsertMasks(fields, mask, caps);
    UpsertDistinct(fields, mask, caps);
    UpsertLookup(fields, mask, caps, m);
  }

  lemma {:induction false} UpsertMasks(fields: Fields, mask: nat, caps: nat)
    ensures Masks(Upsert(fields, mask, caps)) == Masks(fields) + {mask}
  {
    var u := Upsert(fields, mask, caps);
    if fields == [] {
      MasksCons(u);
      assert u[1..] == [];
    } else if fields[0].0 == mask {
      MasksCons(u);
      MasksCons(fields);
      assert u[1..] == fields[1..];
    } else {
      var rest := fields[1..];
      UpsertMasks(rest, mask, caps);
      assert u[1..] == Upsert(rest, mask, caps);
      MasksCons(fields);
      MasksCons(u);
    }
  }

  lemma {:induction false} UpsertDistinct(fields: Fields, mask: nat, caps: nat)
    requires DistinctMasks(fields)
    ensures DistinctMasks(Upsert(fields, mask, caps))
  {
    var u := Upsert(fields, mask, caps);
    if fields == [] {
    } else if fields[0].0 == mask {
      assert forall i :: 0 <= i < |u| ==> u[i].0 == fields[i].0;
    } else {
      var rest := fields[1..];
      UpsertDistinct(rest, mask, caps);
      UpsertMasks(rest, mask, caps);
      var v := Upsert(rest, mask, caps);
      assert u == [fields[0]] + v;
      MasksCons(fields);
      assert fields[0].0 !in Masks(v);
      assert forall i :: 1 <= i < |u| ==> u[i] == v[i - 1];
      forall i, j | 0 <= i < j < |u|
        ensures u[i].0 != u[j].0
      {
        if i == 0 {
          assert u[j].0 in Masks(v);
        }
      }
    }
  }

  lemma {:induction false} UpsertLookup(fields: Fields, mask: nat, caps: nat, m: nat)
    ensures Lookup(Upsert(fields, mask, caps), m) == if m == mask then Or(Lookup(fields, m), caps) else Lookup(fields, m)
  {
    var u := Upsert(fields, mask, caps);
    if fields == [] {
      assert u[1..] == [];
    } else if fields[0].0 == mask {
      assert u[1..] == fields[1..];
    } else {
      UpsertLookup(fields[1..], mask, caps, m);
      assert u[1..] == Upsert(fields[1..], mask, caps);
    }
  }

  lemma MasksCons(fields: Fields)
    requires fields != []
    ensures Masks(fields) == {fields[0].0} + Masks(fields[1..])
  {
    var rest := fields[1..];
    forall x | x in Masks(fields)
      ensures x == fields[0].0 || x in Masks(rest)
    {
      var i :| 0 <= i < |fields| && fields[i].0 == x;
      if i > 0 {
        assert rest[i - 1] == fields[i];
      }
    }
    forall x | x in Masks(rest)
      ensures x in Masks(fields)
    {
      var i :| 0 <= i < |rest| && rest[i].0 == x;
      assert fields[i + 1] == rest[i];
    }
  }

  /** The placed arguments' masks. */
  function PlacedMasks(ps: seq<Placed>): set<nat>
  {
    set j | 0 <= j < |ps| :: ps[j].mask
  }

  /** A placement that asks for capability bit `k` of field `m`. */
  predicate Wants(ps: seq<Placed>, m: nat, k: nat)
  {
    exists j :: 0 <= j < |ps| && ps[j].mask == m && Bit(ps[j].caps, k)
  }

  /** Gathering keeps the masks distinct, adds the masks used, and a field
   * wants a capability bit exactly when it did before or some argument
   * placed in it wants it. */
  lemma {:induction false} GatherSpec(fields: Fields, ps: seq<Placed>, m: nat, k: nat)
    requires DistinctMasks(fields)
    ensures DistinctMasks(Gather(fields, ps))
    ensures Masks(Gather(fields, ps)) == Masks(fields) + PlacedMasks(ps)
    ensures Bit(Lookup(Gather(fields, ps), m), k) <==> Bit(Lookup(fields, m), k) || Wants(ps, m, k)
    decreases |ps|
  {
    if ps != [] {
      var p := ps[0];
      var u := Upsert(fields, p.mask, p.caps);
      UpsertSpec(fields, p.mask, p.caps, m);
      BitOr(Lookup(fields, m), p.caps, k);
      GatherSpec(u, ps[1..], m, k);
      PlacedCons(ps, m, k);
    }
  }

  lemma PlacedCons(ps: seq<Placed>, m: nat, k: nat)
    requires ps != []
    ensures PlacedMasks(ps) == {ps[0].mask} + PlacedMasks(ps[1..])
    ensures Wants(ps, m, k) <==> (ps[0].mask == m && Bit(ps[0].caps, k)) || Wants(ps[1..], m, k)
  {
    var rest := ps[1..];
    assert forall j :: 1 <= j < |ps| ==> ps[j] == rest[j - 1];
    forall x | x in PlacedMasks(ps)
      ensures x == ps[0].mask || x in PlacedMasks(rest)
    {
      var j :| 0 <= j < |ps| && ps[j].mask == x;
      if j > 0 {
        assert rest[j - 1] == ps[j];
      }
    }
    if Wants(rest, m, k) {
      var j :| 0 <= j < |rest| && rest[j].mask == m && Bit(rest[j].caps, k);
      assert ps[j + 1] == rest[j];
    }
    if Wants(ps, m, k) {
      var j :| 0 <= j < |ps| && ps[j].mask == m && Bit(ps[j].caps, k);
      if j > 0 {
        assert rest[j - 1] == ps[j];
      }
    }
  }

  lemma {:induction false} GatherAppend(fields: Fields, a: seq<Placed>, b: seq<Placed>)
    ensures Gather(fields, a + b) == Gather(Gather(fields, a), b)
    decreases |a|
  {
    if a == [] {
      assert a + b == b;
    } else {
      assert (a + b)[1..] == a[1..] + b;
      GatherAppend(Upsert(fields, a[0].mask, a[0].caps), a[1..], b);
    }
  }

  lemma {:induction false} FlattenAppend(a: seq<seq<Placed>>, b: seq<seq<Placed>>)
    ensures Flatten(a + b) == Flatten(a) + Flatten(b)
    decreases |a|
  {
    if a == [] {
      assert a + b == b;
    } else {
      assert (a + b)[1..] == a[1..] + b;
      FlattenAppend(a[1..], b);
    }
  }

  /** The split in two parts costs what the whole allocation costs: part
   * 2 on the first part's fields gives the fields of the whole. */
  lemma CostSplit(first: seq<seq<Placed>>, second: seq<seq<Placed>>)
    ensures CostPart2(second, CostPart1(first)) == (SumPopcount(CostPart1(first + second)), |CostPart1(first + second)|)
  {
    FlattenAppend(first, second);
    GatherAppend([], Flatten(first), Flatten(second));
  }

  /** With distinct masks, the count of fields is the count of masks. */
  lemma {:induction false} DistinctCount(fields: Fields)
    requires DistinctMasks(fields)
    ensures |Masks(fields)| == |fields|
  {
    if fields != [] {
      var rest := fields[1..];
      DistinctCount(rest);
      assert forall i :: 1 <= i < |fields| ==> fields[i] == rest[i - 1];
      MasksCons(fields);
      assert fields[0].0 !in Masks(rest);
    }
  }

  /** The cost of an allocation: its fields are the distinct masks used,
   * each wanting exactly the capability bits some argument placed in it
   * wants, and the second number counts them. */
  lemma CostMeaning(allocs: seq<seq<Placed>>, m: nat, k: nat)
    ensures Masks(CostPart1(allocs)) == PlacedMasks(Flatten(allocs))
    ensures CostPart2([], CostPart1(allocs)).1 == |PlacedMasks(Flatten(allocs))|
    ensures Bit(Lookup(CostPart1(allocs), m), k) <==> Wants(Flatten(allocs), m, k)
  {
    GatherSpec([], Flatten(allocs), m, k);
    ZeroHasNoBits(k);
    assert Flatten([]) == [];
    DistinctCount(CostPart1(allocs));
    assert Masks([]) == {};
  }
}
