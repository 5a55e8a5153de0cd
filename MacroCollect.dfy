/** The newer assembler's first step (`assembler/assembler.rs`): walk every
 * parsed file and record each macro definition under its qualified name,
 * the path of scopes it sits in. */
module MacroCollect {
  import opened Wrappers
  import DecimalText

  /** One step of a qualified name: a labelled scope, or an anonymous one
   * told apart by a number. */
  datatype Entry = Anonymous(id: nat) | Named(name: string)

  /** The items of a parsed file that the walk looks at; everything else
   * is `Other`. */
  datatype Item =
    | Scope(labelName: Option<string>, content: Ast)
    | MacroDefinition(name: string, params: seq<string>, body: Ast)
    | Other

  /** An item with the byte range it was parsed from. */
  datatype Spanned = Spanned(item: Item, start: nat, end: nat)

  /** A parsed file, or the content of a scope or a macro. */
  datatype Ast = Ast(items: seq<Spanned>)

  datatype MacroDef = MacroDef(start: nat, end: nat, params: seq<string>, body: Ast)

  type Table = map<seq<Entry>, MacroDef>

  // ------------------------------------------------------------- display

  function EntryText(e: Entry): (s: string)
    ensures e.Named? ==> s == e.name
    ensures e.Anonymous? ==> |s| > 12 && s[..11] == "<anonymous " && s[|s| - 1] == '>'
  {
    match e
    case Anonymous(id) => "<anonymous " + DecimalText.DecString(id) + ">"
    case Named(name) => name
  }

  /** `Display for QualifiedName`: the entries joined with `.`; no entries
   * show as nothing. */
  function Text(q: seq<Entry>): (s: string)
    ensures q == [] ==> s == ""
    ensures |q| == 1 ==> s == EntryText(q[0])
    decreases |q|
  {
    if q == [] then ""
    else if |q| == 1 then EntryText(q[0])
    else Text(q[..|q| - 1]) + "." + EntryText(q[|q| - 1])
  }

  /** Joining two non-empty names puts one `.` between their texts. */
  lemma {:induction false} TextJoin(a: seq<Entry>, b: seq<Entry>)
    requires a != [] && b != []
    ensures Text(a + b) == Text(a) + "." + Text(b)
    decreases |b|
  {
    if |b| == 1 {
      assert (a + b)[..|a + b| - 1] == a;
    } else {
      var b' := b[..|b| - 1];
      assert (a + b)[..|a + b| - 1] == a + b';
      TextJoin(a, b');
    }
  }

  lemma TextExample()
    ensures Text([Anonymous(0), Named("outer"), Named("m")]) == "<anonymous 0>.outer.m"
  {
    assert DecimalText.DecString(0) == "0";
    var q := [Anonymous(0), Named("outer"), Named("m")];
    assert q[..2] == [Anonymous(0), Named("outer")];
    assert q[..2][..1] == [Anonymous(0)];
  }

  // ------------------------------------------------------------- collect

  /** The entry a scope item adds: its labelName, or its index among its
   * siblings. */
  function ScopeEntry(labelName: Option<string>, index: nat): (e: Entry)
    ensures labelName.Some? <==> e.Named?
    ensures labelName.Some? ==> e == Named(labelName.value)
    ensures labelName.None? ==> e == Anonymous(index)
  {
    if labelName.Some? then Named(labelName.value) else Anonymous(index)
  }

  /** `collect_macros_recursive` on the values, from item `from` on: a
   * scope's content is walked with its entry added, a macro definition is
   * stored under the scope plus its name, replacing any earlier one, and
   * other items (so also macro bodies) are not looked into. */
  function Collect(ast: Ast, from: nat, scope: seq<Entry>, table: Table): (t: Table)
    requires from <= |ast.items|
    decreases ast, |ast.items| - from
  {
    if from == |ast.items| then table
    else
      var s := ast.items[from];
      assert s in ast.items;
      var table' :=
        match s.item
        case Scope(labelName, content) => Collect(content, 0, scope + [ScopeEntry(labelName, from)], table)
        case MacroDefinition(name, params, body) => table[scope + [Named(name)] := MacroDef(s.start, s.end, params, body)]
        case Other => table;
      Collect(ast, from + 1, scope, table')
  }

  /** The item defines a macro called `name`. */
  predicate Defines(s: Spanned, name: string)
  {
    s.item.MacroDefinition? && s.item.name == name
  }

  /** Keys the walk under `scope` can write: the scope plus one name, or
   * longer keys below it. */
  predicate Below(k: seq<Entry>, scope: seq<Entry>)
  {
    |k| > |scope| && k[..|scope|] == scope
  }

  /** The walk keeps every key outside its scope, and only writes keys
   * below it. */
  lemma {:induction false} CollectBelow(ast: Ast, from: nat, scope: seq<Entry>, table: Table, k: seq<Entry>)
    requires from <= |ast.items| && !Below(k, scope)
    ensures var t := Collect(ast, from, scope, table);
      (k in t <==> k in table) && (k in t ==> t[k] == table[k])
    decreases ast, |ast.items| - from
  {
    if from < |ast.items| {
      var s := ast.items[from];
      assert s in ast.items;
      match s.item
      case Scope(labelName, content) =>
        var scope' := scope + [ScopeEntry(labelName, from)];
        assert !Below(k, scope');
        CollectBelow(content, 0, scope', table, k);
        CollectBelow(ast, from + 1, scope, Collect(content, 0, scope', table), k);
      case MacroDefinition(name, params, body) =>
        assert k != scope + [Named(name)];
        CollectBelow(ast, from + 1, scope, table[scope + [Named(name)] := MacroDef(s.start, s.end, params, body)], k);
      case Other =>
        CollectBelow(ast, from + 1, scope, table, k);
    }
  }

  /** A key of the scope plus one name that no later definition at this
   * level uses keeps its entry: nested scopes write longer keys. */
  lemma {:induction false} CollectKeeps(ast: Ast, from: nat, scope: seq<Entry>, table: Table, name: string)
    requires from <= |ast.items|
    requires forall j :: from <= j < |ast.items| ==> !Defines(ast.items[j], name)
    ensures var k := scope + [Named(name)]; var t := Collect(ast, from, scope, table);
      (k in t <==> k in table) && (k in t ==> t[k] == table[k])
    decreases |ast.items| - from
  {
    if from < |ast.items| {
      var k := scope + [Named(name)];
      var s := ast.items[from];
      match s.item
      case Scope(labelName, content) =>
        var scope' := scope + [ScopeEntry(labelName, from)];
        assert !Below(k, scope');
        CollectBelow(content, 0, scope', table, k);
        CollectKeeps(ast, from + 1, scope, Collect(content, 0, scope', table), name);
      case MacroDefinition(n, params, body) =>
        assert n != name;
        assert scope + [Named(n)] != k by {
          assert (scope + [Named(n)])[|scope|] == Named(n);
          assert k[|scope|] == Named(name);
        }
        CollectKeeps(ast, from + 1, scope, table[scope + [Named(n)] := MacroDef(s.start, s.end, params, body)], name);
      case Other =>
        CollectKeeps(ast, from + 1, scope, table, name);
    }
  }

  /** Of several macros with one name in one scope, the last one is
   * what the table holds. */
  lemma {:induction false} LastDefinitionWins(ast: Ast, from: nat, scope: seq<Entry>, table: Table, i: nat)
    requires from <= i < |ast.items| && ast.items[i].item.MacroDefinition?
    requires forall j :: i < j < |ast.items| ==> !Defines(ast.items[j], ast.items[i].item.name)
    ensures var m := ast.items[i]; var t := Collect(ast, from, scope, table);
      scope + [Named(m.item.name)] in t &&
      t[scope + [Named(m.item.name)]] == MacroDef(m.start, m.end, m.item.params, m.item.body)
    decreases i - from
  {
    var s := ast.items[from];
    var table' :=
      match s.item
      case Scope(labelName, content) => Collect(content, 0, scope + [ScopeEntry(labelName, from)], table)
      case MacroDefinition(name, params, body) => table[scope + [Named(name)] := MacroDef(s.start, s.end, params, body)]
      case Other => table;
    if from < i {
      LastDefinitionWins(ast, from + 1, scope, table', i);
    } else {
      CollectKeeps(ast, from + 1, scope, table', ast.items[i].item.name);
    }
  }

  /** A scope plus one name is never below a deeper scope. */
  lemma NotBelowDeeper(scope: seq<Entry>, e: Entry, name: string)
    ensures !Below(scope + [Named(name)], scope + [e])
  {
  }

  /** `collect_macros` on the values: each file with a syntax tree is
   * walked from the root scope `Anonymous(i)`, `i` its index; a file
   * whose parse failed is skipped. */
  function CollectFiles(files: seq<Option<Ast>>, from: nat, table: Table): (t: Table)
    requires from <= |files|
    ensures from == |files| ==> t == table
    decreases |files| - from
  {
    if from == |files| then table
    else
      var table' := if files[from].Some? then Collect(files[from].value, 0, [Anonymous(from)], table) else table;
      CollectFiles(files, from + 1, table')
  }

  /** Files never write each other's keys: a key whose root is the
   * anonymous root of another file, or of a skipped file, keeps its
   * entry. */
  lemma {:induction false} FilesSeparate(files: seq<Option<Ast>>, from: nat, table: Table, k: seq<Entry>)
    requires from <= |files|
    requires k != [] && (forall i :: from <= i < |files| && files[i].Some? ==> k[0] != Anonymous(i))
    ensures var t := CollectFiles(files, from, table);
      (k in t <==> k in table) && (k in t ==> t[k] == table[k])
    decreases |files| - from
  {
    if from < |files| {
      if files[from].Some? {
        assert !Below(k, [Anonymous(from)]);
        CollectBelow(files[from].value, 0, [Anonymous(from)], table, k);
        FilesSeparate(files, from + 1, Collect(files[from].value, 0, [Anonymous(from)], table), k);
      } else {
        FilesSeparate(files, from + 1, table, k);
      }
    }
  }

  // ------------------------------------------------------------- imperative

  /** `QualifiedName`, the path of the scope being walked. */
  class QualifiedName {
    var entries: seq<Entry>

    /** `new_anonymous(id)`. */
    constructor (id: nat)
      ensures entries == [Anonymous(id)]
    {
      entries := [Anonymous(id)];
    }

    /** `push_name`. */
    method PushName(name: string)
      modifies this
      ensures entries == old(entries) + [Named(name)]
    {
      entries := entries + [Named(name)];
    }

    /** `push_anonymous`. */
    method PushAnonymous(id: nat)
      modifies this
      ensures entries == old(entries) + [Anonymous(id)]
    {
      entries := entries + [Anonymous(id)];
    }

    /** `pop`: the last entry goes; an empty name stays empty. */
    method Pop()
      modifies this
      ensures entries == if old(entries) == [] then [] else old(entries)[..|old(entries)| - 1]
    {
      if entries != [] {
        entries := entries[..|entries| - 1];
      }
    }
  }

  /** The macro table being filled. */
  class Collector {
    var table: Table

    constructor ()
      ensures table == map[]
    {
      table := map[];
    }

    /** `collect_macros_recursive`: the scope is pushed and popped around
     * each nested scope, so it ends as it started. */
    method CollectRecursive(ast: Ast, currentScope: QualifiedName)
      modifies this, currentScope
      ensures currentScope.entries == old(currentScope.entries)
      ensures table == Collect(ast, 0, old(currentScope.entries), old(table))
      decreases ast
    {
      var index := 0;
      while index < |ast.items|
        invariant 0 <= index <= |ast.items|
        invariant currentScope.entries == old(currentScope.entries)
        invariant Collect(ast, 0, old(currentScope.entries), old(table)) == Collect(ast, index, currentScope.entries, table)
        decreases |ast.items| - index
      {
        var s := ast.items[index];
        assert s in ast.items;
        match s.item {
          case Scope(labelName, content) =>
            if labelName.Some? {
              currentScope.PushName(labelName.value);
            } else {
              currentScope.PushAnonymous(index);
            }
            CollectRecursive(content, currentScope);
            currentScope.Pop();
          case MacroDefinition(name, params, body) =>
            table := table[currentScope.entries + [Named(name)] := MacroDef(s.start, s.end, params, body)];
          case Other =>
        }
        index := index + 1;
      }
    }

    /** `collect_macros`: every file in turn, each from its own root. */
    method CollectMacros(files: seq<Option<Ast>>)
      modifies this
      ensures table == CollectFiles(files, 0, old(table))
    {
      var i := 0;
      while i < |files|
        invariant 0 <= i <= |files|
        invariant CollectFiles(files, 0, old(table)) == CollectFiles(files, i, table)
      {
        if files[i].Some? {
          var currentScope := new QualifiedName(i);
          CollectRecursive(files[i].value, currentScope);
        }
        i := i + 1;
      }
    }
  }
}
