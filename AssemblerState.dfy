/** The Rust assembler's two-pass state (`assembler/mod.rs`): symbols live
 * in scopes, words go to sections, and the second pass checks that every
 * symbol comes out exactly as in the first. */
module AssemblerState {
  import opened Wrappers
  import opened Files
  import I32

  type Word = x: int | 0 <= x < 0x1_0000

  /** A symbol: a place in a section (with an optional attached scope), or
   * a plain value. Both remember where they were defined. */
  datatype Symbol =
    | InSection(section: nat, offset: Word, attachedScope: Option<nat>, definedAt: Location)
    | Free(value: I32.i32, definedAt: Location)

  datatype Section = Section(startAddress: Word, data: seq<Word>)

  /** The errors `define_symbol` raises. */
  datatype AsmError =
    | SymbolRedefinition(location: Location, previousDefinition: Location)
    | SymbolChangedValue(location: Location)
    | OtherError(description: string)

  const PathSeparatorError := OtherError("Symbol definition can't contain path separators")

  /** `define_symbol` on the active scope's table: a name with the path
   * separator `:` is refused; the first pass adds a new name and refuses
   * one already there; the second pass only checks that the stored
   * symbol is the same one. */
  function Define(firstPass: bool, scope: map<string, Symbol>, name: string, symbol: Symbol): (r: Result<map<string, Symbol>, AsmError>)
    ensures ':' in name ==> r == Err(PathSeparatorError)
    ensures ':' !in name && firstPass ==>
      (name in scope <==> r.Err?) &&
      (r.Err? ==> r.error == SymbolRedefinition(symbol.definedAt, scope[name].definedAt)) &&
      (r.Ok? ==> r.value == scope[name := symbol])
    ensures ':' !in name && !firstPass ==>
      (r.Ok? <==> name in scope && scope[name] == symbol) &&
      (r.Ok? ==> r.value == scope) &&
      (r.Err? ==> r.error == SymbolChangedValue(symbol.definedAt))
  {
    if ':' in name then Err(PathSeparatorError)
    else if firstPass then
      if name in scope then Err(SymbolRedefinition(symbol.definedAt, scope[name].definedAt))
      else Ok(scope[name := symbol])
    else if name in scope && scope[name] == symbol then Ok(scope)
    else Err(SymbolChangedValue(symbol.definedAt))
  }

  /** `Symbol::get_value`: a section symbol is the section's start plus its
   * offset (two `u16`s widened to `i32`, which cannot overflow); a free
   * symbol is its value. */
  function SymbolValue(s: Symbol, sections: seq<Section>): (v: I32.i32)
    requires s.InSection? ==> s.section < |sections|
    ensures s.InSection? ==> v - s.offset == sections[s.section].startAddress && 0 <= v <= 2 * 0xffff
    ensures s.Free? ==> v == s.value
  {
    match s
    case InSection(section, offset, _, _) => sections[section].startAddress + offset
    case Free(value, _) => value
  }

  // -------------------------------------------------------------- passes

  /** What a file asks of the state while it is parsed: define a symbol in
   * the active scope, or emit a word to the current section. */
  datatype Request = DefineRequest(name: string, symbol: Symbol) | EmitRequest(word: Word)

  /** Where a run of requests leaves the active scope and the current
   * section's data, and the error that stopped it, if any. */
  datatype PassResult = PassResult(scope: map<string, Symbol>, data: seq<Word>, error: Option<AsmError>)

  /** Requests handled in order; the first error stops the run (`?`). */
  function Pass(firstPass: bool, scope: map<string, Symbol>, data: seq<Word>, rs: seq<Request>): (r: PassResult)
    ensures r.error.None? ==> |r.data| == |data| + |Words(rs)|
    decreases |rs|
  {
    if rs == [] then PassResult(scope, data, None)
    else
      match rs[0]
      case EmitRequest(w) => Pass(firstPass, scope, data + [w], rs[1..])
      case DefineRequest(name, symbol) =>
        match Define(firstPass, scope, name, symbol)
        case Err(e) => PassResult(scope, data, Some(e))
        case Ok(scope') => Pass(firstPass, scope', data, rs[1..])
  }

  /** The words among the requests, in order. */
  function Words(rs: seq<Request>): (ws: seq<Word>)
    ensures |ws| <= |rs|
    decreases |rs|
  {
    if rs == [] then [] else (if rs[0].EmitRequest? then [rs[0].word] else []) + Words(rs[1..])
  }

  /** A pass that gets through appends exactly the emitted words. */
  lemma {:induction false} PassAppendsWords(firstPass: bool, scope: map<string, Symbol>, data: seq<Word>, rs: seq<Request>)
    requires Pass(firstPass, scope, data, rs).error.None?
    ensures Pass(firstPass, scope, data, rs).data == data + Words(rs)
    decreases |rs|
  {
    if rs != [] {
      match rs[0]
      case EmitRequest(w) =>
        PassAppendsWords(firstPass, scope, data + [w], rs[1..]);
      case DefineRequest(name, symbol) =>
        PassAppendsWords(firstPass, Define(firstPass, scope, name, symbol).value, data, rs[1..]);
    }
  }

  /** The first pass only adds names; a successful one binds every defined
   * name to its symbol. */
  lemma {:induction false} FirstPassBinds(scope: map<string, Symbol>, data: seq<Word>, rs: seq<Request>)
    requires Pass(true, scope, data, rs).error.None?
    ensures var s := Pass(true, scope, data, rs).scope;
      (forall n :: n in scope ==> n in s && s[n] == scope[n]) &&
      (forall i :: 0 <= i < |rs| && rs[i].DefineRequest? ==> rs[i].name in s && s[rs[i].name] == rs[i].symbol)
    decreases |rs|
  {
    if rs != [] {
      var s := Pass(true, scope, data, rs).scope;
      match rs[0]
      case EmitRequest(w) =>
        FirstPassBinds(scope, data + [w], rs[1..]);
        forall i | 0 < i < |rs| && rs[i].DefineRequest?
          ensures rs[i].name in s && s[rs[i].name] == rs[i].symbol
        {
          assert rs[1..][i - 1] == rs[i];
        }
      case DefineRequest(name, symbol) =>
        var scope' := Define(true, scope, name, symbol).value;
        FirstPassBinds(scope', data, rs[1..]);
        forall i | 0 < i < |rs| && rs[i].DefineRequest?
          ensures rs[i].name in s && s[rs[i].name] == rs[i].symbol
        {
          assert rs[1..][i - 1] == rs[i];
        }
    }
  }

  /** The second pass never changes the scope, and gets through as long as
   * every name it defines is already bound to the very same symbol. */
  lemma {:induction false} SecondPassChecks(scope: map<string, Symbol>, data: seq<Word>, rs: seq<Request>)
    requires forall i :: 0 <= i < |rs| && rs[i].DefineRequest? ==>
      ':' !in rs[i].name && rs[i].name in scope && scope[rs[i].name] == rs[i].symbol
    ensures Pass(false, scope, data, rs) == PassResult(scope, data + Words(rs), None)
    decreases |rs|
  {
    if rs != [] {
      forall i | 0 <= i < |rs[1..]| && rs[1..][i].DefineRequest?
        ensures ':' !in rs[1..][i].name && rs[1..][i].name in scope && scope[rs[1..][i].name] == rs[1..][i].symbol
      {
        assert rs[1..][i] == rs[i + 1];
      }
      match rs[0]
      case EmitRequest(w) =>
        SecondPassChecks(scope, data + [w], rs[1..]);
        SecondPassEmit(scope, data, rs, w);
      case DefineRequest(name, symbol) =>
        SecondPassChecks(scope, data, rs[1..]);
        SecondPassDefine(scope, data, rs);
    }
  }

  lemma SecondPassEmit(scope: map<string, Symbol>, data: seq<Word>, rs: seq<Request>, w: Word)
    requires rs != [] && rs[0] == EmitRequest(w)
    requires Pass(false, scope, data + [w], rs[1..]) == PassResult(scope, data + [w] + Words(rs[1..]), None)
    ensures Pass(false, scope, data, rs) == PassResult(scope, data + Words(rs), None)
  {
    assert Pass(false, scope, data, rs) == Pass(false, scope, data + [w], rs[1..]);
    WordsEmit(rs, w, data, data + [w] + Words(rs[1..]));
  }

  lemma WordsEmit(rs: seq<Request>, w: Word, data: seq<Word>, out: seq<Word>)
    requires rs != [] && rs[0] == EmitRequest(w) && out == data + [w] + Words(rs[1..])
    ensures out == data + Words(rs)
  {
    assert Words(rs) == [w] + Words(rs[1..]);
  }

  lemma SecondPassDefine(scope: map<string, Symbol>, data: seq<Word>, rs: seq<Request>)
    requires rs != [] && rs[0].DefineRequest?
    requires ':' !in rs[0].name && rs[0].name in scope && scope[rs[0].name] == rs[0].symbol
    requires Pass(false, scope, data, rs[1..]) == PassResult(scope, data + Words(rs[1..]), None)
    ensures Pass(false, scope, data, rs) == PassResult(scope, data + Words(rs), None)
  {
    assert Define(false, scope, rs[0].name, rs[0].symbol) == Ok(scope);
    assert Words(rs) == Words(rs[1..]);
  }

  /** The requests of all files, file after file. */
  function Concat(files: seq<seq<Request>>): (rs: seq<Request>)
    ensures files == [] ==> rs == []
    decreases |files|
  {
    if files == [] then [] else files[0] + Concat(files[1..])
  }

  /** Running `a + b` is running `a`, then `b` from where `a` stopped. */
  lemma {:induction false} PassConcat(firstPass: bool, scope: map<string, Symbol>, data: seq<Word>, a: seq<Request>, b: seq<Request>)
    ensures var ra := Pass(firstPass, scope, data, a);
      Pass(firstPass, scope, data, a + b) ==
        if ra.error.Some? then ra else Pass(firstPass, ra.scope, ra.data, b)
    decreases |a|
  {
    if a != [] {
      assert (a + b)[0] == a[0] && (a + b)[1..] == a[1..] + b;
      match a[0]
      case EmitRequest(w) =>
        PassConcat(firstPass, scope, data + [w], a[1..], b);
      case DefineRequest(name, symbol) =>
        match Define(firstPass, scope, name, symbol)
        case Err(_) =>
        case Ok(scope') => PassConcat(firstPass, scope', data, a[1..], b);
    } else {
      assert a + b == b;
    }
  }

  /** `assemble` on the values: every file in the first pass, then every
   * file again in the second. */
  function Assembled(scope: map<string, Symbol>, data: seq<Word>, files: seq<seq<Request>>): (r: PassResult)
    ensures Pass(true, scope, data, Concat(files)).error.Some? ==> r == Pass(true, scope, data, Concat(files))
  {
    var first := Pass(true, scope, data, Concat(files));
    if first.error.Some? then first else Pass(false, first.scope, first.data, Concat(files))
  }

  /** When the first pass gets through, so does the second, with the scope
   * as the first pass left it; and since `emit_word` appends in both
   * passes, the section ends up holding the emitted words twice. */
  lemma TwoPasses(scope: map<string, Symbol>, data: seq<Word>, files: seq<seq<Request>>)
    requires Pass(true, scope, data, Concat(files)).error.None?
    ensures var rs := Concat(files);
      Assembled(scope, data, files) ==
        PassResult(Pass(true, scope, data, rs).scope, data + Words(rs) + Words(rs), None)
  {
    var rs := Concat(files);
    var first := Pass(true, scope, data, rs);
    PassAppendsWords(true, scope, data, rs);
    FirstPassBinds(scope, data, rs);
    forall i | 0 <= i < |rs| && rs[i].DefineRequest?
      ensures ':' !in rs[i].name
    {
      NoSeparatorAt(scope, data, rs, i);
    }
    SecondPassChecks(first.scope, first.data, rs);
  }

  /** A successful first pass saw no name with a path separator. */
  lemma {:induction false} NoSeparatorAt(scope: map<string, Symbol>, data: seq<Word>, rs: seq<Request>, i: nat)
    requires Pass(true, scope, data, rs).error.None?
    requires i < |rs| && rs[i].DefineRequest?
    ensures ':' !in rs[i].name
    decreases i
  {
    if i > 0 {
      assert rs[1..][i - 1] == rs[i];
      match rs[0]
      case EmitRequest(w) =>
        NoSeparatorAt(scope, data + [w], rs[1..], i - 1);
      case DefineRequest(name, symbol) =>
        NoSeparatorAt(Define(true, scope, name, symbol).value, data, rs[1..], i - 1);
    }
  }

  /** The same name defined twice in one file stops the first pass. */
  lemma RedefinitionStops(name: string, s1: Symbol, s2: Symbol)
    requires ':' !in name
    ensures Pass(true, map[], [], [DefineRequest(name, s1), DefineRequest(name, s2)]).error
      == Some(SymbolRedefinition(s2.definedAt, s1.definedAt))
  {
    var rs := [DefineRequest(name, s1), DefineRequest(name, s2)];
    assert rs[1..] == [DefineRequest(name, s2)];
  }

  // --------------------------------------------------------------- state

  /** `AssemblerState`: scopes and sections are arenas (indices into a
   * sequence), with a stack of active scopes that is never empty. */
  class State {
    var firstPass: bool
    var scopes: seq<map<string, Symbol>>
    var activeScopes: seq<nat>
    var sections: seq<Section>
    var sectionNames: map<string, nat>
    var currentSection: nat
    var currentPc: Word

    ghost predicate Valid()
      reads this
    {
      && |activeScopes| >= 1
      && (forall i :: 0 <= i < |activeScopes| ==> activeScopes[i] < |scopes|)
      && currentSection < |sections|
      && (forall n :: n in sectionNames ==> sectionNames[n] < |sections|)
    }

    /** The innermost active scope's table. */
    function ActiveScope(): map<string, Symbol>
      reads this
      requires Valid()
    {
      scopes[activeScopes[|activeScopes| - 1]]
    }

    function CurrentData(): seq<Word>
      reads this
      requires Valid()
    {
      sections[currentSection].data
    }

    /** `Default`: the first pass, the root scope alone, and a `.text`
     * section at address 0 as the current section, with `pc` 0. */
    constructor ()
      ensures Valid() && firstPass
      ensures scopes == [map[]] && activeScopes == [0]
      ensures sections == [Section(0, [])] && sectionNames == map[".text" := 0]
      ensures currentSection == 0 && currentPc == 0
    {
      firstPass := true;
      scopes := [map[]];
      activeScopes := [0];
      sections := [Section(0, [])];
      sectionNames := map[".text" := 0];
      currentSection := 0;
      currentPc := 0;
    }

    /** `start_second_pass`: only the pass flag changes. */
    method StartSecondPass()
      modifies this
      ensures !firstPass
      ensures scopes == old(scopes) && activeScopes == old(activeScopes) && sections == old(sections)
      ensures sectionNames == old(sectionNames) && currentSection == old(currentSection) && currentPc == old(currentPc)
    {
      firstPass := false;
    }

    /** `define_symbol`: the active scope's table becomes what `Define`
     * says, or nothing changes on an error. */
    method DefineSymbol(name: string, symbol: Symbol) returns (r: Result<(), AsmError>)
      requires Valid()
      modifies this
      ensures Valid()
      ensures var d := Define(old(firstPass), old(ActiveScope()), name, symbol);
        (d.Err? ==> r == Err(d.error) && scopes == old(scopes)) &&
        (d.Ok? ==> r == Ok(()) && scopes == old(scopes)[old(activeScopes[|activeScopes| - 1]) := d.value])
      ensures firstPass == old(firstPass) && activeScopes == old(activeScopes) && sections == old(sections)
      ensures sectionNames == old(sectionNames) && currentSection == old(currentSection) && currentPc == old(currentPc)
    {
      var d := Define(firstPass, ActiveScope(), name, symbol);
      match d
      case Err(e) =>
        r := Err(e);
      case Ok(scope) =>
        scopes := scopes[activeScopes[|activeScopes| - 1] := scope];
        r := Ok(());
    }

    /** `emit_word`: the word is appended to the current section's data,
     * and only there. */
    method EmitWord(word: Word)
      requires Valid()
      modifies this
      ensures Valid() && currentSection == old(currentSection)
      ensures sections == old(sections)[currentSection := Section(old(sections[currentSection].startAddress), old(CurrentData()) + [word])]
      ensures firstPass == old(firstPass) && scopes == old(scopes) && activeScopes == old(activeScopes)
      ensures sectionNames == old(sectionNames) && currentSection == old(currentSection) && currentPc == old(currentPc)
    {
      sections := sections[currentSection := sections[currentSection].(data := sections[currentSection].data + [word])];
    }

    /** One file's requests, as the parser makes them, stopping at the
     * first error. */
    method RunFile(rs: seq<Request>) returns (r: Result<(), AsmError>)
      requires Valid()
      modifies this
      ensures Valid()
      ensures var p := Pass(old(firstPass), old(ActiveScope()), old(CurrentData()), rs);
        ActiveScope() == p.scope && CurrentData() == p.data &&
        (r.Err? <==> p.error.Some?) && (r.Err? ==> r.error == p.error.value)
      ensures firstPass == old(firstPass) && activeScopes == old(activeScopes) && currentSection == old(currentSection)
      ensures |scopes| == old(|scopes|) && |sections| == old(|sections|)
      ensures sectionNames == old(sectionNames) && currentPc == old(currentPc)
    {
      var i := 0;
      while i < |rs|
        invariant 0 <= i <= |rs| && Valid()
        invariant Pass(old(firstPass), old(ActiveScope()), old(CurrentData()), rs)
          == Pass(firstPass, ActiveScope(), CurrentData(), rs[i..])
        invariant firstPass == old(firstPass) && activeScopes == old(activeScopes) && currentSection == old(currentSection)
        invariant |scopes| == old(|scopes|) && |sections| == old(|sections|)
        invariant sectionNames == old(sectionNames) && currentPc == old(currentPc)
      {
        assert rs[i..][0] == rs[i] && rs[i..][1..] == rs[i + 1..];
        if rs[i].EmitRequest? {
          EmitWord(rs[i].word);
        } else {
          var d := DefineSymbol(rs[i].name, rs[i].symbol);
          if d.Err? {
            return d;
          }
        }
        i := i + 1;
      }
      assert rs[i..] == [];
      r := Ok(());
    }

    /** `assemble`: all files in the first pass, the pass flag cleared, all
     * files again. */
    method Assemble(files: seq<seq<Request>>) returns (r: Result<(), AsmError>)
      requires Valid()
      modifies this
      ensures Valid()
      ensures var a := Assembled(old(ActiveScope()), old(CurrentData()), files);
        old(firstPass) ==>
          ActiveScope() == a.scope && CurrentData() == a.data &&
          (r.Err? <==> a.error.Some?) && (r.Err? ==> r.error == a.error.value)
      ensures activeScopes == old(activeScopes) && currentSection == old(currentSection)
    {
      r := RunFiles(files);
      if r.Err? {
        return;
      }
      firstPass := false;
      r := RunFiles(files);
    }

    /** The loop over the files of one pass. */
    method RunFiles(files: seq<seq<Request>>) returns (r: Result<(), AsmError>)
      requires Valid()
      modifies this
      ensures Valid()
      ensures var p := Pass(old(firstPass), old(ActiveScope()), old(CurrentData()), Concat(files));
        ActiveScope() == p.scope && CurrentData() == p.data &&
        (r.Err? <==> p.error.Some?) && (r.Err? ==> r.error == p.error.value)
      ensures firstPass == old(firstPass) && activeScopes == old(activeScopes) && currentSection == old(currentSection)
      ensures |scopes| == old(|scopes|) && |sections| == old(|sections|)
      ensures sectionNames == old(sectionNames) && currentPc == old(currentPc)
    {
      var i := 0;
      while i < |files|
        invariant 0 <= i <= |files| && Valid()
        invariant Pass(old(firstPass), old(ActiveScope()), old(CurrentData()), Concat(files))
          == Pass(firstPass, ActiveScope(), CurrentData(), Concat(files[i..]))
        invariant firstPass == old(firstPass) && activeScopes == old(activeScopes) && currentSection == old(currentSection)
        invariant |scopes| == old(|scopes|) && |sections| == old(|sections|)
        invariant sectionNames == old(sectionNames) && currentPc == old(currentPc)
      {
        assert Concat(files[i..]) == files[i] + Concat(files[i + 1..]) by {
          assert files[i..][1..] == files[i + 1..];
        }
        PassConcat(firstPass, ActiveScope(), CurrentData(), files[i], Concat(files[i + 1..]));
        r := RunFile(files[i]);
        if r.Err? {
          return;
        }
        i := i + 1;
      }
      assert files[i..] == [];
      r := Ok(());
    }
  }
}
