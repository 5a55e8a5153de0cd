/** The earlier version of the assembler's two-pass state
 * (`assembler/state.rs`): a symbol is a value with an optional section
 * and an optional attached scope, and errors are messages naming the
 * symbol. */
module ParseState {
  import opened Wrappers
  import I32

  type Word = x: int | 0 <= x < 0x1_0000

  datatype Symbol = Symbol(value: I32.i32, section: Option<nat>, scope: Option<nat>)

  datatype Section = Section(startAddress: Word, pc: Word)

  /** The four failures of `define_symbol`; the message text quotes the
   * symbol's name. */
  datatype DefineError =
    | PathSeparator
    | Redefinition(name: string)
    | ChangedValue(name: string)
    | OnlyInSecondPass(name: string)

  /** `define_symbol` on the active scope's table. */
  function Define(firstPass: bool, scope: map<string, Symbol>, name: string, symbol: Symbol): (r: Result<map<string, Symbol>, DefineError>)
    ensures ':' in name ==> r == Err(PathSeparator)
    ensures ':' !in name && firstPass ==>
      (r.Err? <==> name in scope) && (r.Err? ==> r.error == Redefinition(name)) &&
      (r.Ok? ==> r.value == scope[name := symbol])
    ensures ':' !in name && !firstPass ==>
      (name !in scope ==> r == Err(OnlyInSecondPass(name))) &&
      (name in scope && scope[name] != symbol ==> r == Err(ChangedValue(name))) &&
      (name in scope && scope[name] == symbol ==> r == Ok(scope))
  {
    if ':' in name then Err(PathSeparator)
    else if firstPass then
      if name in scope then Err(Redefinition(name)) else Ok(scope[name := symbol])
    else if name !in scope then Err(OnlyInSecondPass(name))
    else if scope[name].value != symbol.value || scope[name].section != symbol.section || scope[name].scope != symbol.scope then
      Err(ChangedValue(name))
    else Ok(scope)
  }

  /** Defining a name in the first pass and again, identically, in the
   * second succeeds and leaves the table as the first pass made it;
   * defining it with anything else in the second pass is refused. */
  lemma SecondPassAgrees(scope: map<string, Symbol>, name: string, symbol: Symbol, other: Symbol)
    requires Define(true, scope, name, symbol).Ok?
    ensures var s := Define(true, scope, name, symbol).value;
      Define(false, s, name, symbol) == Ok(s) &&
      (other != symbol ==> Define(false, s, name, other) == Err(ChangedValue(name)))
  {
  }

  /** The second pass never changes a table. */
  lemma SecondPassKeepsScope(scope: map<string, Symbol>, name: string, symbol: Symbol)
    ensures Define(false, scope, name, symbol).Ok? ==> Define(false, scope, name, symbol).value == scope
  {
  }

  /** `ParseState`. */
  class State {
    var firstPass: bool
    var scopes: seq<map<string, Symbol>>
    var activeScopes: seq<nat>
    var sections: seq<Section>
    var sectionNames: map<string, nat>
    var currentSection: nat
    var currentPc: Word

    ghost predicate Valid()
      reads this
    {
      && |activeScopes| >= 1
      && (forall i :: 0 <= i < |activeScopes| ==> activeScopes[i] < |scopes|)
      && currentSection < |sections|
      && (forall n :: n in sectionNames ==> sectionNames[n] < |sections|)
    }

    function ActiveScope(): map<string, Symbol>
      reads this
      requires Valid()
    {
      scopes[activeScopes[|activeScopes| - 1]]
    }

    /** `Default`: the first pass, one root scope, and a `.text` section at
     * address 0 with `pc` 0. */
    constructor ()
      ensures Valid() && firstPass
      ensures scopes == [map[]] && activeScopes == [0]
      ensures sections == [Section(0, 0)] && sectionNames == map[".text" := 0]
      ensures currentSection == 0 && currentPc == 0
    {
      firstPass := true;
      scopes := [map[]];
      activeScopes := [0];
      sections := [Section(0, 0)];
      sectionNames := map[".text" := 0];
      currentSection := 0;
      currentPc := 0;
    }

    /** `start_second_pass`: only the pass flag changes. */
    method StartSecondPass()
      modifies this
      ensures !firstPass
      ensures scopes == old(scopes) && activeScopes == old(activeScopes) && sections == old(sections)
      ensures sectionNames == old(sectionNames) && currentSection == old(currentSection) && currentPc == old(currentPc)
    {
      firstPass := false;
    }

    /** `define_symbol(name, value, sectioned, scope)`: the symbol records
     * the current section only when `sectioned`. */
    method DefineSymbol(name: string, value: I32.i32, sectioned: bool, scopeId: Option<nat>) returns (r: Result<(), DefineError>)
      requires Valid()
      modifies this
      ensures Valid()
      ensures var symbol := Symbol(value, if sectioned then Some(old(currentSection)) else None, scopeId);
        var d := Define(old(firstPass), old(ActiveScope()), name, symbol);
        (d.Err? ==> r == Err(d.error) && scopes == old(scopes)) &&
        (d.Ok? ==> r == Ok(()) && scopes == old(scopes)[old(activeScopes[|activeScopes| - 1]) := d.value])
      ensures firstPass == old(firstPass) && activeScopes == old(activeScopes) && sections == old(sections)
      ensures sectionNames == old(sectionNames) && currentSection == old(currentSection) && currentPc == old(currentPc)
    {
      var section := if sectioned then Some(currentSection) else None;
      var d := Define(firstPass, ActiveScope(), name, Symbol(value, section, scopeId));
      match d
      case Err(e) =>
        r := Err(e);
      case Ok(scope) =>
        scopes := scopes[activeScopes[|activeScopes| - 1] := scope];
        r := Ok(());
    }
  }
}
