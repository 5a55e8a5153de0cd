/** The two-pass state of the Python prototype assembler for the 8-bit
 * machine (`trilo8bit/assembler/assembler.py`).
 *
 * A program is written as Python code that, run once per pass, defines
 * labels and emits bytes. The first pass only counts bytes and records
 * where each label is; the second emits the bytes and checks that every
 * label lands where the first pass put it. The program as run is modelled
 * as the sequence of those two requests (`Op`).
 *
 * The two Python state classes, which share a base, are one class here
 * with a `pass2` flag; the base's list of functions still to link is the
 * separate class `FunctionList`. A label made without a name has the name
 * `None`, as in Python. */
module TriloAssembler {
  import opened Wrappers
  import TriloInstructions
  import Arith

  type u8 = x: int | 0 <= x < 0x100
  type Name = Option<string>

  /** `Symbol`: a name and a location in the output. */
  datatype Symbol = Symbol(name: Name, location: int)

  /** `Symbol.__eq__`: two symbols are equal when both the name and the
   * location are. */
  predicate SameSymbol(a: Symbol, b: Symbol)
  {
    a.name == b.name && a.location == b.location
  }

  lemma SameSymbolIsEquality(a: Symbol, b: Symbol)
    ensures SameSymbol(a, b) <==> a == b
  {
  }

  datatype AsmError =
    | Redefining(symbol: Symbol, previous: Symbol)
    | NotDefinedInFirstPass(symbol: Symbol)
    | ChangedSinceFirstPass(symbol: Symbol, previous: Symbol)

  type SymbolTable = map<Name, Symbol>

  // ---------------------------------------------------- the two passes

  /** One request of a program: emit bytes, or define a label here. */
  datatype Op = Emit(bytes: seq<u8>) | Define(name: Name)

  /** First pass, `insert_symbol`: a new label at the current location; a
   * name already in the table is an error. */
  function FirstPassSymbol(table: SymbolTable, name: Name, location: int): (r: Result<Symbol, AsmError>)
    ensures r.Ok? <==> name !in table
    ensures r.Err? ==> r.error == Redefining(Symbol(name, location), table[name])
    ensures r.Ok? ==> r.value == Symbol(name, location)
  {
    if name in table then Err(Redefining(Symbol(name, location), table[name]))
    else Ok(Symbol(name, location))
  }

  /** Second pass, `insert_symbol`: the label must be in the first pass's
   * table, at the same location; the table's symbol is returned. */
  function SecondPassSymbol(table: SymbolTable, name: Name, location: int): (r: Result<Symbol, AsmError>)
    ensures r.Ok? <==> name in table && table[name] == Symbol(name, location)
    ensures r.Ok? ==> r.value == table[name]
  {
    if name !in table then Err(NotDefinedInFirstPass(Symbol(name, location)))
    else if !SameSymbol(table[name], Symbol(name, location)) then
      Err(ChangedSinceFirstPass(Symbol(name, location), table[name]))
    else Ok(table[name])
  }

  /** The first pass over a program from `location`: the symbol table it
   * ends with, or the first redefinition. */
  function FirstPass(ops: seq<Op>, table: SymbolTable, location: int): (r: Result<SymbolTable, AsmError>)
    decreases |ops|
  {
    if ops == [] then Ok(table)
    else match ops[0]
      case Emit(bytes) => FirstPass(ops[1..], table, location + |bytes|)
      case Define(name) =>
        var s := FirstPassSymbol(table, name, location);
        if s.Err? then Err(s.error) else FirstPass(ops[1..], table[name := s.value], location)
  }

  /** The second pass over a program from `location`: the bytes it emits,
   * or the first label that moved. */
  function SecondPass(ops: seq<Op>, table: SymbolTable, location: int): (r: Result<seq<u8>, AsmError>)
    decreases |ops|
  {
    if ops == [] then Ok([])
    else match ops[0]
      case Emit(bytes) =>
        var rest := SecondPass(ops[1..], table, location + |bytes|);
        if rest.Err? then rest else Ok(bytes + rest.value)
      case Define(name) =>
        var s := SecondPassSymbol(table, name, location);
        if s.Err? then Err(s.error) else SecondPass(ops[1..], table, location)
  }

  /** Everything a program emits. */
  function Output(ops: seq<Op>): (bytes: seq<u8>)
    decreases |ops|
  {
    if ops == [] then [] else (if ops[0].Emit? then ops[0].bytes else []) + Output(ops[1..])
  }

  /** Both passes and the output, one request at a time. */
  lemma PassesCons(op: Op, ops: seq<Op>, table: SymbolTable, location: int)
    ensures FirstPass([op] + ops, table, location) ==
      match op
        case Emit(bytes) => FirstPass(ops, table, location + |bytes|)
        case Define(name) =>
          if name in table then Err(Redefining(Symbol(name, location), table[name]))
          else FirstPass(ops, table[name := Symbol(name, location)], location)
    ensures SecondPass([op] + ops, table, location) ==
      match op
        case Emit(bytes) =>
          var rest := SecondPass(ops, table, location + |bytes|);
          if rest.Err? then rest else Ok(bytes + rest.value)
        case Define(name) =>
          var s := SecondPassSymbol(table, name, location);
          if s.Err? then Err(s.error) else SecondPass(ops, table, location)
    ensures Output([op] + ops) == (if op.Emit? then op.bytes else []) + Output(ops)
  {
    assert ([op] + ops)[0] == op && ([op] + ops)[1..] == ops;
  }

  /** Two runs of a program are alike when they define the same labels in
   * the same order and emit the same number of bytes between them; the
   * bytes themselves may differ (the first pass encodes every jump to a
   * label as 0). */
  predicate Alike(a: seq<Op>, b: seq<Op>)
  {
    |a| == |b| &&
    forall i :: 0 <= i < |a| ==>
      (a[i].Define? <==> b[i].Define?) &&
      (a[i].Define? ==> a[i].name == b[i].name) &&
      (a[i].Emit? ==> |a[i].bytes| == |b[i].bytes|)
  }

  /** `extends`: every entry of `small` is in `big`, unchanged. */
  predicate Extends(big: SymbolTable, small: SymbolTable)
  {
    forall n :: n in small ==> n in big && big[n] == small[n]
  }

  /** The two passes agree: when the first pass succeeds, a second pass
   * over a run alike to it, given the first pass's table, finds every label
   * where the first put it and emits all the bytes of its run. */
  lemma TwoPassesAgree(first: seq<Op>, second: seq<Op>, offset: int)
    requires Alike(first, second) && FirstPass(first, map[], offset).Ok?
    ensures SecondPass(second, FirstPass(first, map[], offset).value, offset) == Ok(Output(second))
  {
    PassesAgreeFrom(first, second, map[], offset);
  }

  lemma {:induction false} PassesAgreeFrom(first: seq<Op>, second: seq<Op>, table: SymbolTable, location: int)
    requires Alike(first, second) && FirstPass(first, table, location).Ok?
    ensures Extends(FirstPass(first, table, location).value, table)
    ensures SecondPass(second, FirstPass(first, table, location).value, location) == Ok(Output(second))
    decreases |first|
  {
    if first != [] {
      var final := FirstPass(first, table, location).value;
      assert Alike(first[1..], second[1..]) by {
        forall i | 0 <= i < |first[1..]|
          ensures first[1..][i] == first[i + 1] && second[1..][i] == second[i + 1]
        {
        }
      }
      assert first[0].Define? <==> second[0].Define?;
      match first[0]
      case Emit(bytes) =>
        assert |second[0].bytes| == |bytes|;
        PassesAgreeFrom(first[1..], second[1..], table, location + |bytes|);
      case Define(name) =>
        assert name !in table;
        var t := table[name := Symbol(name, location)];
        assert final == FirstPass(first[1..], t, location).value;
        PassesAgreeFrom(first[1..], second[1..], t, location);
        assert name in t && final[name] == Symbol(name, location);
        assert second[0] == Define(name);
        assert SecondPassSymbol(final, name, location).Ok?;
        assert Output(second) == Output(second[1..]);
    }
  }

  // -------------------------------------------------- functions to link

  /** `add_function` on a list: appended unless already there. */
  function Added<T(==)>(list: seq<T>, f: T): (r: seq<T>)
  {
    if f in list then list else list + [f]
  }

  predicate Distinct<T(==)>(s: seq<T>)
  {
    forall i, j :: 0 <= i < j < |s| ==> s[i] != s[j]
  }

  /** The functions still to link (`_AssemblerState`): a list in order of
   * first request and the set of functions in it. */
  class FunctionList<T(==)> {
    var list: seq<T>
    var seen: set<T>

    predicate Valid()
      reads this
    {
      Distinct(list) && seen == set f | f in list
    }

    constructor ()
      ensures Valid() && list == []
    {
      list, seen := [], {};
    }

    /** `add_function`: a function not seen before goes to the end of the
     * list; one seen before changes nothing. */
    method AddFunction(f: T)
      requires Valid()
      modifies this
      ensures Valid() && list == Added(old(list), f)
    {
      if f !in seen {
        list := list + [f];
        seen := seen + {f};
      }
    }

    /** The loop over `functions_to_link` while each function's code is
     * generated, which requests the functions it calls (`calls`, in call
     * order). Functions requested meanwhile are linked too, so when it ends
     * the list is closed under calls, starts with the list it began with,
     * holds no function twice, and every function it gained is called by
     * one before it. The functions that can be requested at all are
     * `universe`. */
    method LinkAll(calls: T -> seq<T>, universe: set<T>)
      requires Valid() && Within(list, universe) && Closed(universe, calls)
      modifies this
      ensures Valid() && |old(list)| <= |list| && list[..|old(list)|] == old(list)
      ensures Linked(list, |list|, |old(list)|, calls)
    {
      var i := 0;
      while i < |list|
        invariant Valid() && i <= |list| && old(list) <= list
        invariant Within(list, universe) && Linked(list, i, |old(list)|, calls)
        decreases universe - seen, |list| - i
      {
        ghost var before := list;
        LinkNext(i, |old(list)|, calls, universe);
        i := i + 1;
      }
    }

    /** One step of the loop: the code of function `i` is generated and
     * requests its callees. Either the list grows by functions not seen
     * before, or nothing changes. */
    method LinkNext(i: nat, ghost start: nat, calls: T -> seq<T>, universe: set<T>)
      requires Valid() && i < |list| && start <= |list| && Within(list, universe) && Closed(universe, calls)
      requires Linked(list, i, start, calls)
      modifies this
      ensures Valid() && old(list) <= list
      ensures Within(list, universe)
      ensures Linked(list, i + 1, start, calls)
      ensures universe - seen < universe - old(seen) || (list == old(list) && seen == old(seen))
    {
      ghost var before := list;
      ghost var seenBefore := seen;
      AddAll(calls(list[i]));
      LinkStep(before, list, i, start, calls);
      assert before[i] in universe;
      GrownWithin(before, list, calls(before[i]), universe);
      if |list| > |before| {
        NewAtEnd(before, list);
        assert list[|before|] in universe - seenBefore;
        assert list[|before|] !in universe - seen;
      } else {
        assert list == before;
      }
    }

    /** The inner loop: every function in `callees` is added in turn. */
    method AddAll(callees: seq<T>)
      requires Valid()
      modifies this
      ensures Valid() && |old(list)| <= |list| && list[..|old(list)|] == old(list)
      ensures forall g :: g in callees ==> g in list
      ensures forall m :: |old(list)| <= m < |list| ==> list[m] in callees
    {
      for k := 0 to |callees|
        invariant Valid() && |old(list)| <= |list| && list[..|old(list)|] == old(list)
        invariant forall g :: g in callees[..k] ==> g in list
        invariant forall m :: |old(list)| <= m < |list| ==> list[m] in callees
      {
        AddFunction(callees[k]);
        assert callees[..k + 1] == callees[..k] + [callees[k]];
      }
      assert callees[..|callees|] == callees;
    }
  }

  predicate Within<T>(list: seq<T>, universe: set<T>)
  {
    forall f :: f in list ==> f in universe
  }

  /** A function in `universe` calls only functions in it. */
  predicate Closed<T>(universe: set<T>, calls: T -> seq<T>)
  {
    forall f, g :: f in universe && g in calls(f) ==> g in universe
  }

  /** The worklist facts after `i` functions of `list` are linked: their
   * calls are all in the list, and each function past the first `start`
   * is called by a linked function before it. */
  predicate Linked<T(==)>(list: seq<T>, i: nat, start: nat, calls: T -> seq<T>)
  {
    (forall j, g :: 0 <= j < i && j < |list| && g in calls(list[j]) ==> g in list) &&
    (forall k :: start <= k < |list| ==> exists j :: 0 <= j < k && j < i && list[k] in calls(list[j]))
  }

  /** The element after an old prefix of a list without repeats is not in
   * the prefix. */
  lemma NewAtEnd<T>(before: seq<T>, after: seq<T>)
    requires Distinct(after) && |before| < |after| && after[..|before|] == before
    ensures after[|before|] !in before
  {
    forall m | 0 <= m < |before|
      ensures before[m] != after[|before|]
    {
      assert before[m] == after[m];
    }
  }

  /** A list grown by callees of a function in `universe` stays in it. */
  lemma GrownWithin<T>(before: seq<T>, after: seq<T>, callees: seq<T>, universe: set<T>)
    requires |before| <= |after| && after[..|before|] == before
    requires Within(before, universe) && Within(callees, universe)
    requires forall m :: |before| <= m < |after| ==> after[m] in callees
    ensures Within(after, universe)
  {
    forall f | f in after
      ensures f in universe
    {
      var m :| 0 <= m < |after| && after[m] == f;
      if m < |before| {
        assert before[m] == f;
      }
    }
  }

  /** Linking function `i` keeps the worklist facts. */
  lemma LinkStep<T>(before: seq<T>, after: seq<T>, i: nat, start: nat, calls: T -> seq<T>)
    requires i < |before| <= |after| && after[..|before|] == before && start <= |before|
    requires Linked(before, i, start, calls)
    requires forall g :: g in calls(before[i]) ==> g in after
    requires forall m :: |before| <= m < |after| ==> after[m] in calls(before[i])
    ensures Linked(after, i + 1, start, calls)
  {
    forall j | 0 <= j <= i
      ensures after[j] == before[j]
    {
    }
    forall j, g | 0 <= j < i + 1 && g in calls(after[j])
      ensures g in after
    {
      if j < i {
        assert g in before;
        var m :| 0 <= m < |before| && before[m] == g;
        assert after[m] == g;
      }
    }
    forall k | start <= k < |after|
      ensures exists j :: 0 <= j < k && j < i + 1 && after[k] in calls(after[j])
    {
      if k >= |before| {
        assert after[k] in calls(after[i]);
      } else {
        assert after[k] == before[k];
        var j :| 0 <= j < k && j < i && before[k] in calls(before[j]);
        assert after[j] == before[j];
      }
    }
  }

  // -------------------------------------------------------- pass state

  /** `_Pass1State` (`pass2` false) and `_Pass2State` (`pass2` true). */
  class State {
    const pass2: bool
    const offset: int
    var symbolTable: SymbolTable
    /** The first pass's location. */
    var location: int
    /** The second pass's output. */
    var data: seq<u8>

    /** `get_current_location`. */
    function CurrentLocation(): (loc: int)
      reads this
    {
      if pass2 then |data| + offset else location
    }

    /** `_Pass1State.__init__`: an empty table at `offset`. */
    constructor Pass1(offset: int)
      ensures !pass2 && this.offset == offset && symbolTable == map[] && CurrentLocation() == offset && data == []
    {
      pass2 := false;
      this.offset := offset;
      symbolTable := map[];
      location := offset;
      data := [];
    }

    /** `_Pass2State.__init__`, reached through
     * `create_generate_top_level2_state`: the first pass's offset and
     * table, and no output yet. */
    constructor Pass2(offset: int, table: SymbolTable)
      ensures pass2 && this.offset == offset && symbolTable == table && data == [] && CurrentLocation() == offset
    {
      pass2 := true;
      this.offset := offset;
      symbolTable := table;
      location := offset;
      data := [];
    }

    method CreateSecondPass() returns (s: State)
      ensures fresh(s) && s.pass2 && s.offset == offset && s.symbolTable == symbolTable && s.data == []
    {
      s := new State.Pass2(offset, symbolTable);
    }

    /** `insert_data`: the first pass moves the location on, the second
     * appends the bytes. */
    method InsertData(bytes: seq<u8>)
      modifies this
      ensures symbolTable == old(symbolTable) && CurrentLocation() == old(CurrentLocation()) + |bytes|
      ensures pass2 ==> data == old(data) + bytes
      ensures !pass2 ==> data == old(data)
    {
      if pass2 {
        data := data + bytes;
      } else {
        location := location + |bytes|;
      }
    }

    /** `insert_symbol`: a new entry in the first pass, a check against the
     * first pass's table in the second. */
    method InsertSymbol(name: Name) returns (r: Result<Symbol, AsmError>)
      modifies this
      ensures CurrentLocation() == old(CurrentLocation()) && data == old(data)
      ensures !pass2 ==> r == FirstPassSymbol(old(symbolTable), name, old(CurrentLocation()))
      ensures !pass2 && r.Ok? ==> symbolTable == old(symbolTable)[name := r.value]
      ensures pass2 ==> r == SecondPassSymbol(old(symbolTable), name, old(CurrentLocation()))
      ensures pass2 || r.Err? ==> symbolTable == old(symbolTable)
    {
      if pass2 {
        r := SecondPassSymbol(symbolTable, name, |data| + offset);
      } else {
        r := FirstPassSymbol(symbolTable, name, location);
        if r.Ok? {
          symbolTable := symbolTable[name := r.value];
        }
      }
    }

    /** `get_symbol_location` (see `Lookup`). */
    function GetSymbolLocation(target: TriloInstructions.TargetRef, asWritten: bool): (r: Result<Option<int>, TriloInstructions.FieldError>)
      reads this
      ensures r == Lookup(pass2, symbolTable, target, asWritten)
    {
      Lookup(pass2, symbolTable, target, asWritten)
    }

    /** Runs a program against this state until a label fails. */
    method Run(ops: seq<Op>) returns (r: Result<(), AsmError>)
      modifies this
      ensures !pass2 ==> (r.Ok? <==> FirstPass(ops, old(symbolTable), old(CurrentLocation())).Ok?)
      ensures !pass2 && r.Ok? ==> symbolTable == FirstPass(ops, old(symbolTable), old(CurrentLocation())).value
      ensures pass2 ==> symbolTable == old(symbolTable)
      ensures pass2 ==> (r.Ok? <==> SecondPass(ops, old(symbolTable), old(CurrentLocation())).Ok?)
      ensures pass2 && r.Ok? ==> data == old(data) + SecondPass(ops, old(symbolTable), old(CurrentLocation())).value
    {
      ghost var start := CurrentLocation();
      ghost var table := symbolTable;
      assert ops[0..] == ops;
      if pass2 {
        assert data[|old(data)|..] == [];
        PrefixedEmpty(SecondPass(ops, table, start));
      }
      for i := 0 to |ops|
        invariant !pass2 ==> FirstPass(ops[i..], symbolTable, CurrentLocation()) == FirstPass(ops, table, start)
        invariant pass2 ==> symbolTable == table && |old(data)| <= |data| && data[..|old(data)|] == old(data)
        invariant pass2 ==> SecondPass(ops, table, start) == Prefixed(data[|old(data)|..], SecondPass(ops[i..], table, CurrentLocation()))
      {
        assert ops[i..][1..] == ops[i + 1..];
        match ops[i]
        case Emit(bytes) =>
          ghost var before := data;
          InsertData(bytes);
          if pass2 {
            PrefixedAppend(before[|old(data)|..], bytes, SecondPass(ops[i + 1..], table, CurrentLocation()));
            assert data[|old(data)|..] == before[|old(data)|..] + bytes;
          }
        case Define(name) =>
          var s := InsertSymbol(name);
          if s.Err? {
            return Err(s.error);
          }
      }
      if pass2 {
        assert ops[|ops|..] == [];
        assert data[|old(data)|..] + [] == data[|old(data)|..];
        assert SecondPass(ops, table, start) == Ok(data[|old(data)|..]);
      }
      return Ok(());
    }
  }

  /** `prefix` in front of the bytes of `r`, or `r`'s error. */
  function Prefixed(prefix: seq<u8>, r: Result<seq<u8>, AsmError>): (p: Result<seq<u8>, AsmError>)
    ensures p.Ok? <==> r.Ok?
  {
    if r.Err? then r else Ok(prefix + r.value)
  }

  lemma PrefixedEmpty(r: Result<seq<u8>, AsmError>)
    ensures Prefixed([], r) == r
  {
    if r.Ok? {
      assert [] + r.value == r.value;
    }
  }

  lemma PrefixedAppend(prefix: seq<u8>, bytes: seq<u8>, r: Result<seq<u8>, AsmError>)
    ensures Prefixed(prefix, if r.Err? then r else Ok(bytes + r.value)) == Prefixed(prefix + bytes, r)
  {
    if r.Ok? {
      assert prefix + (bytes + r.value) == (prefix + bytes) + r.value;
    }
  }

  /** `get_symbol_location`. The first pass knows no locations yet. The
   * second knows a label's own location; a name, as written, is looked up
   * through the undefined variable `name`, which raises `NameError`
   * whatever the table holds; corrected, the name is looked up in the
   * table and a missing one is reported. */
  function Lookup(pass2: bool, table: SymbolTable, target: TriloInstructions.TargetRef, asWritten: bool): (r: Result<Option<int>, TriloInstructions.FieldError>)
  {
    if !pass2 then Ok(None)
    else match target
      case Label(location) => Ok(Some(location))
      case Name(n) =>
        if asWritten then Err(TriloInstructions.NameNotDefined)
        else if Some(n) in table then Ok(Some(table[Some(n)].location))
        else Err(TriloInstructions.SymbolNotFound(n))
  }

  /** The finding: in the second pass a jump to a label given by its name
   * fails, as written, even when the label is defined; corrected, it lands
   * on the label. */
  lemma JumpByNameAsWritten(table: SymbolTable, n: string, bits: nat, current: int)
    requires Some(n) in table && bits > 0
    ensures TriloInstructions.ParseJ(TriloInstructions.Target(TriloInstructions.Name(n)), bits,
      Lookup(true, table, TriloInstructions.Name(n), true), current) == Err(TriloInstructions.NameNotDefined)
    ensures var r := TriloInstructions.ParseJ(TriloInstructions.Target(TriloInstructions.Name(n)), bits,
      Lookup(true, table, TriloInstructions.Name(n), false), current);
      r.Ok? <==> -(Arith.Pow2(bits - 1) as int) <= table[Some(n)].location - current - 1 < Arith.Pow2(bits - 1)
    ensures var r := TriloInstructions.ParseJ(TriloInstructions.Target(TriloInstructions.Name(n)), bits,
      Lookup(true, table, TriloInstructions.Name(n), false), current);
      r.Ok? ==> current + 1 + TriloInstructions.Signed(r.value, bits) == table[Some(n)].location
  {
    TriloInstructions.JumpLandsOnTarget(TriloInstructions.Target(TriloInstructions.Name(n)), bits, table[Some(n)].location, current);
  }
}
