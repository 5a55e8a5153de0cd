/** Ordering of the microinstructions of one microcode step, as the
 * generators emit them (`generate_microcode_step` with
 * `translate_microinstruction`, in `toolchain-rs/build.rs` and
 * `emulator-rs/build.rs`): every microinstruction gets a phase, and a step
 * is emitted sorted by phase, so that the microinstructions producing a bus
 * value come before the ones consuming it. Both sorts are stable.
 *
 * The Rust statements the generators write for each microinstruction are
 * text for the compiler and are not modelled; only the names and phases
 * are. */
module Microcode {
  import opened Wrappers

  /** The phase of every microinstruction the toolchain generator knows:
   * bus sources 0, ALU and bus moves 1, address 2, memory and `pc` 3,
   * data 4, write-back 5, end of instruction 6, break 7. */
  const ToolchainPhases: map<string, nat> := map[
    "pc->left" := 0, "pc->addr_base" := 0, "zero->left" := 0,
    "f2->left" := 0, "f3->left" := 0, "f4->right" := 0,
    "f5->right" := 0, "f6->right" := 0, "f7->right" := 0,
    "right->addr_base" := 1, "left->mem_data" := 1,
    "alu_add->result" := 1, "alu_and->result" := 1, "alu_or->result" := 1,
    "alu_xor->result" := 1, "alu_sub->result" := 1, "alu_upsample->result" := 1,
    "f8->addr_offset" := 2, "zero->addr_offset" := 2, "one->addr_offset" := 2,
    "program_segment" := 2,
    "mem_address->pc" := 3, "read_mem_data" := 3, "write_mem_data" := 3,
    "mem_data->instruction" := 4, "mem_data->result" := 4,
    "result->f1" := 5, "result->f6" := 5,
    "end_instruction" := 6,
    "break" := 7]

  /** The emulator generator's priorities: the same table without
   * `program_segment`, `end_instruction` and `break`. */
  const EmulatorPriorities: map<string, nat> := map[
    "pc->left" := 0, "pc->addr_base" := 0, "zero->left" := 0,
    "f2->left" := 0, "f3->left" := 0, "f4->right" := 0,
    "f5->right" := 0, "f6->right" := 0, "f7->right" := 0,
    "right->addr_base" := 1, "left->mem_data" := 1,
    "alu_add->result" := 1, "alu_and->result" := 1, "alu_or->result" := 1,
    "alu_xor->result" := 1, "alu_sub->result" := 1, "alu_upsample->result" := 1,
    "f8->addr_offset" := 2, "zero->addr_offset" := 2, "one->addr_offset" := 2,
    "mem_address->pc" := 3, "read_mem_data" := 3, "write_mem_data" := 3,
    "mem_data->instruction" := 4, "mem_data->result" := 4,
    "result->f1" := 5, "result->f6" := 5]

  /** The priority the emulator's generator gives an unknown
   * microinstruction, whose code is a `todo!()`. */
  const UnknownPriority: nat := 9999

  /** The toolchain's `translate_microinstruction`: `None` where it panics
   * with `todo!` on an unknown name. */
  function ToolchainPhase(name: string): (r: Option<nat>)
    ensures r.Some? <==> name in ToolchainPhases
    ensures r.Some? ==> r.value <= 7
  {
    if name in ToolchainPhases then Some(ToolchainPhases[name]) else None
  }

  /** The emulator's `translate_microinstruction`, which never panics. */
  function EmulatorPriority(name: string): (r: nat)
    ensures r == UnknownPriority <==> name !in EmulatorPriorities
  {
    if name in EmulatorPriorities then EmulatorPriorities[name] else UnknownPriority
  }

  /** The two generators agree on every name the emulator's knows; the
   * toolchain's knows exactly three names more, in the last phases but
   * one for `program_segment`. */
  lemma PhaseTablesAgree(name: string)
    ensures name in EmulatorPriorities ==> ToolchainPhase(name) == Some(EmulatorPriority(name))
    ensures name in ToolchainPhases && name !in EmulatorPriorities <==>
      name == "program_segment" || name == "end_instruction" || name == "break"
    ensures ToolchainPhase("program_segment") == Some(2)
    ensures ToolchainPhase("end_instruction") == Some(6) && ToolchainPhase("break") == Some(7)
  {
  }

  // ------------------------------------------------------------- sorting

  /** A microinstruction with the phase it is sorted by. */
  datatype Micro = Micro(name: string, phase: nat)

  predicate Sorted(s: seq<Micro>)
  {
    forall i, j :: 0 <= i < j < |s| ==> s[i].phase <= s[j].phase
  }

  /** The microinstructions of one phase, in their order. */
  function InPhase(s: seq<Micro>, k: nat): (r: seq<Micro>)
    ensures |r| <= |s|
  {
    if s == [] then []
    else InPhase(s[..|s| - 1], k) + (if s[|s| - 1].phase == k then [s[|s| - 1]] else [])
  }

  /** Insertion behind every element of the same or a lower phase. */
  function Insert(s: seq<Micro>, x: Micro): (r: seq<Micro>)
  {
    if s == [] || s[|s| - 1].phase <= x.phase then s + [x]
    else Insert(s[..|s| - 1], x) + [s[|s| - 1]]
  }

  /** The stable sort by phase that `sorted_by_key` and `sort_by` perform. */
  function SortByPhase(s: seq<Micro>): seq<Micro>
  {
    if s == [] then [] else Insert(SortByPhase(s[..|s| - 1]), s[|s| - 1])
  }

  lemma {:induction false} InPhaseAppend(a: seq<Micro>, b: seq<Micro>, k: nat)
    ensures InPhase(a + b, k) == InPhase(a, k) + InPhase(b, k)
    decreases |b|
  {
    if b == [] {
      assert a + b == a;
    } else {
      assert (a + b)[..|a + b| - 1] == a + b[..|b| - 1];
      InPhaseAppend(a, b[..|b| - 1], k);
    }
  }

  lemma {:induction false} InsertMultiset(s: seq<Micro>, x: Micro)
    ensures multiset(Insert(s, x)) == multiset(s) + multiset{x}
    decreases |s|
  {
    if !(s == [] || s[|s| - 1].phase <= x.phase) {
      var init := s[..|s| - 1];
      assert s == init + [s[|s| - 1]];
      InsertMultiset(init, x);
    }
  }

  lemma {:induction false} InsertSorted(s: seq<Micro>, x: Micro)
    requires Sorted(s)
    ensures Sorted(Insert(s, x))
    decreases |s|
  {
    if !(s == [] || s[|s| - 1].phase <= x.phase) {
      var init, last := s[..|s| - 1], s[|s| - 1];
      InsertSorted(init, x);
      InsertMultiset(init, x);
      var r := Insert(init, x);
      forall i | 0 <= i < |r|
        ensures r[i].phase <= last.phase
      {
        assert r[i] in multiset(r);
        assert r[i] == x || r[i] in multiset(init);
        if r[i] != x {
          var j :| 0 <= j < |init| && init[j] == r[i];
          assert s[j] == init[j];
        }
      }
    }
  }

  lemma {:induction false} InsertInPhase(s: seq<Micro>, x: Micro, k: nat)
    ensures InPhase(Insert(s, x), k) == InPhase(s, k) + InPhase([x], k)
    decreases |s|
  {
    if s == [] || s[|s| - 1].phase <= x.phase {
      InPhaseAppend(s, [x], k);
    } else {
      var init, last := s[..|s| - 1], s[|s| - 1];
      assert s == init + [last];
      InsertInPhase(init, x, k);
      InsertInPhaseStep(s, init, last, x, k);
    }
  }

  lemma InsertInPhaseStep(s: seq<Micro>, init: seq<Micro>, last: Micro, x: Micro, k: nat)
    requires s == init + [last] && x.phase < last.phase
    requires InPhase(Insert(init, x), k) == InPhase(init, k) + InPhase([x], k)
    ensures InPhase(Insert(s, x), k) == InPhase(s, k) + InPhase([x], k)
  {
    assert s[..|s| - 1] == init;
    assert Insert(s, x) == Insert(init, x) + [last];
    InPhaseAppend(Insert(init, x), [last], k);
    InPhaseAppend(init, [last], k);
    if x.phase == k {
      assert last.phase != k;
    }
  }

  /** The sort orders by phase, keeps every microinstruction exactly as
   * often as it occurs, and keeps the order within each phase. */
  lemma {:induction false} SortByPhaseSpec(s: seq<Micro>, k: nat)
    ensures Sorted(SortByPhase(s))
    ensures multiset(SortByPhase(s)) == multiset(s)
    ensures InPhase(SortByPhase(s), k) == InPhase(s, k)
  {
    if s != [] {
      var init, x := s[..|s| - 1], s[|s| - 1];
      assert s == init + [x];
      SortByPhaseSpec(init, k);
      InsertSorted(SortByPhase(init), x);
      InsertMultiset(SortByPhase(init), x);
      InsertInPhase(SortByPhase(init), x, k);
      InPhaseAppend(init, [x], k);
    }
  }

  // ------------------------------------------------------------ one step

  /** `substitute_microinstruction`: a name starting with `$` is replaced
   * by the listed microinstructions; a missing substitution panics
   * (`None`). Other names pass through unchanged. */
  function Substitute(m: string, substitutions: map<string, seq<string>>): (r: Option<seq<string>>)
    ensures |m| == 0 || m[0] != '$' ==> r == Some([m])
    ensures |m| > 0 && m[0] == '$' ==> (r.Some? <==> m[1..] in substitutions)
  {
    if |m| > 0 && m[0] == '$' then
      if m[1..] in substitutions then Some(substitutions[m[1..]]) else None
    else Some([m])
  }

  /** The `flat_map` of the substitution over a step. */
  function SubstituteAll(step: seq<string>, substitutions: map<string, seq<string>>): (r: Option<seq<string>>)
  {
    if step == [] then Some([])
    else
      match (SubstituteAll(step[..|step| - 1], substitutions), Substitute(step[|step| - 1], substitutions))
      case (Some(a), Some(b)) => Some(a + b)
      case _ => None
  }

  /** A step without `$` names is left as it is. */
  lemma {:induction false} SubstituteAllPlain(step: seq<string>, substitutions: map<string, seq<string>>)
    requires forall i :: 0 <= i < |step| ==> |step[i]| == 0 || step[i][0] != '$'
    ensures SubstituteAll(step, substitutions) == Some(step)
  {
    if step != [] {
      SubstituteAllPlain(step[..|step| - 1], substitutions);
      assert step == step[..|step| - 1] + [step[|step| - 1]];
    }
  }

  /** The translation of each name to a phase; `None` when any is unknown. */
  function ToolchainTranslate(names: seq<string>): (r: Option<seq<Micro>>)
    ensures r.Some? ==> |r.value| == |names|
    ensures r.Some? ==> forall i :: 0 <= i < |names| ==> names[i] in ToolchainPhases && r.value[i] == Micro(names[i], ToolchainPhases[names[i]])
  {
    if names == [] then Some([])
    else
      match (ToolchainTranslate(names[..|names| - 1]), ToolchainPhase(names[|names| - 1]))
      case (Some(a), Some(p)) => Some(a + [Micro(names[|names| - 1], p)])
      case _ => None
  }

  /** The toolchain's `generate_microcode_step`: substitute, translate,
   * then sort by phase. */
  function ToolchainStep(step: seq<string>, substitutions: map<string, seq<string>>): Option<seq<Micro>>
  {
    match SubstituteAll(step, substitutions)
    case None => None
    case Some(names) =>
      match ToolchainTranslate(names)
      case None => None
      case Some(micros) => Some(SortByPhase(micros))
  }

  /** The emulator's `generate_microcode_step`: translate and sort, with no
   * substitution step. */
  function EmulatorStep(step: seq<string>): seq<Micro>
  {
    SortByPhase(seq(|step|, i requires 0 <= i < |step| => Micro(step[i], EmulatorPriority(step[i]))))
  }

  lemma {:induction false} SubstituteAllSpec(step: seq<string>, substitutions: map<string, seq<string>>)
    ensures SubstituteAll(step, substitutions).Some? <==>
      forall i :: 0 <= i < |step| ==> Substitute(step[i], substitutions).Some?
  {
    if step != [] {
      SubstituteAllSpec(step[..|step| - 1], substitutions);
    }
  }

  lemma {:induction false} ToolchainTranslateSpec(names: seq<string>)
    ensures ToolchainTranslate(names).Some? <==> forall i :: 0 <= i < |names| ==> names[i] in ToolchainPhases
  {
    if names != [] {
      ToolchainTranslateSpec(names[..|names| - 1]);
    }
  }

  /** A step translates exactly when every substitution it names exists and
   * every resulting name is known; the output is then ordered by phase and
   * is the translated list rearranged, each phase's microinstructions in
   * their written order. */
  lemma ToolchainStepSpec(step: seq<string>, substitutions: map<string, seq<string>>, k: nat)
    ensures ToolchainStep(step, substitutions).Some? <==>
      (forall i :: 0 <= i < |step| ==> Substitute(step[i], substitutions).Some?) &&
      SubstituteAll(step, substitutions).Some? &&
      (forall i :: 0 <= i < |SubstituteAll(step, substitutions).value| ==>
        SubstituteAll(step, substitutions).value[i] in ToolchainPhases)
    ensures ToolchainStep(step, substitutions).Some? ==>
      var micros := ToolchainTranslate(SubstituteAll(step, substitutions).value).value;
      var r := ToolchainStep(step, substitutions).value;
      Sorted(r) && multiset(r) == multiset(micros) && InPhase(r, k) == InPhase(micros, k)
  {
    SubstituteAllSpec(step, substitutions);
    if SubstituteAll(step, substitutions).Some? {
      var names := SubstituteAll(step, substitutions).value;
      ToolchainTranslateSpec(names);
      if ToolchainTranslate(names).Some? {
        SortByPhaseSpec(ToolchainTranslate(names).value, k);
      }
    }
  }

  /** Sorting a load step written consumer first puts the producers
   * first. */
  lemma SortByPhaseExample()
    ensures SortByPhase([Micro("mem_data->result", 4), Micro("read_mem_data", 3), Micro("pc->addr_base", 0)]) ==
      [Micro("pc->addr_base", 0), Micro("read_mem_data", 3), Micro("mem_data->result", 4)]
  {
    var m0, m1, m2 := Micro("mem_data->result", 4), Micro("read_mem_data", 3), Micro("pc->addr_base", 0);
    SortStep([m0], [], m0, []);
    assert Insert([], m0) == [m0];
    SortStep([m0, m1], [m0], m1, [m0]);
    InsertBefore([m0], [], m0, m1, [m1]);
    SortStep([m0, m1, m2], [m0, m1], m2, [m1, m0]);
    InsertBefore([m1], [], m1, m2, [m2]);
    InsertBefore([m1, m0], [m1], m0, m2, [m2, m1]);
  }

  /** One element more: the sort of the prefix, with the last inserted. */
  lemma SortStep(s: seq<Micro>, init: seq<Micro>, x: Micro, sortedInit: seq<Micro>)
    requires s == init + [x] && SortByPhase(init) == sortedInit
    ensures SortByPhase(s) == Insert(sortedInit, x)
  {
    assert s[..|s| - 1] == init;
  }

  /** Insertion of an element of a lower phase than the last goes before it. */
  lemma InsertBefore(s: seq<Micro>, init: seq<Micro>, last: Micro, x: Micro, inserted: seq<Micro>)
    requires s == init + [last] && x.phase < last.phase && Insert(init, x) == inserted
    ensures Insert(s, x) == inserted + [last]
  {
    assert s[..|s| - 1] == init;
  }

  lemma ExamplePhases()
    ensures "mem_data->result" in ToolchainPhases && ToolchainPhases["mem_data->result"] == 4
    ensures "read_mem_data" in ToolchainPhases && ToolchainPhases["read_mem_data"] == 3
    ensures "pc->addr_base" in ToolchainPhases && ToolchainPhases["pc->addr_base"] == 0
  {
  }

  /** The same step through the whole toolchain generator. */
  lemma ToolchainStepExample()
    ensures ToolchainStep(["mem_data->result", "read_mem_data", "pc->addr_base"], map[]) ==
      Some([Micro("pc->addr_base", 0), Micro("read_mem_data", 3), Micro("mem_data->result", 4)])
  {
    var step := ["mem_data->result", "read_mem_data", "pc->addr_base"];
    assert step[0][0] == 'm' && step[1][0] == 'r' && step[2][0] == 'p';
    SubstituteAllPlain(step, map[]);
    ToolchainTranslateSpec(step);
    var m0, m1, m2 := Micro("mem_data->result", 4), Micro("read_mem_data", 3), Micro("pc->addr_base", 0);
    ExamplePhases();
    var r := ToolchainTranslate(step).value;
    assert r[0] == m0 && r[1] == m1 && r[2] == m2;
    assert r == [m0, m1, m2];
    SortByPhaseExample();
  }

  /** The emulator's step never fails; it orders by priority, keeps every
   * microinstruction, and leaves unknown ones last, in their order. */
  lemma EmulatorStepSpec(step: seq<string>, k: nat)
    ensures |EmulatorStep(step)| == |step|
    ensures Sorted(EmulatorStep(step))
    ensures InPhase(EmulatorStep(step), k) ==
      InPhase(seq(|step|, i requires 0 <= i < |step| => Micro(step[i], EmulatorPriority(step[i]))), k)
  {
    var micros := seq(|step|, i requires 0 <= i < |step| => Micro(step[i], EmulatorPriority(step[i])));
    SortByPhaseSpec(micros, k);
    assert |multiset(EmulatorStep(step))| == |multiset(micros)|;
  }
}
