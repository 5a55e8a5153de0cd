/** The C assembler's state (`assembler/assembler.c`): the section table
 * (appended to, laid out in declaration order at the start of each pass),
 * the symbol table (prepended to), the current section, the pass number,
 * and the bytes handed to the Intel HEX writer. */
module AsmTables {
  import opened Wrappers

  type u16 = x: int | 0 <= x < 0x1_0000
  type u8 = x: int | 0 <= x < 0x100

  /** Conversion to `uint16_t`: the value modulo 2^16. */
  function Wrap16(x: int): (r: u16)
    ensures 0 <= x < 0x1_0000 ==> r == x
    ensures (r - x) % 0x1_0000 == 0
  {
    x % 0x1_0000
  }

  const DefaultSectionName: string := ".text"

  datatype Section = Section(name: string, startAddress: u16, spc: u16, size: u16)

  /** A symbol; `section` is the index of its section in the section table,
   * `None` for the null pointer. */
  datatype Symbol = Symbol(name: string, address: u16, section: Option<nat>, defined: bool)

  datatype Pass = First | Second

  /** One call of `ihex_output_byte`. */
  datatype ByteWrite = ByteWrite(address: u16, value: u8)

  datatype AsmState = AsmState(
    sections: seq<Section>,
    symbols: seq<Symbol>,
    current: nat,
    pass: Pass,
    output: seq<ByteWrite>)

  /** The current section exists and every symbol's section does. */
  predicate WellFormed(st: AsmState)
  {
    st.current < |st.sections| &&
    forall k :: 0 <= k < |st.symbols| && st.symbols[k].section.Some? ==> st.symbols[k].section.value < |st.sections|
  }

  // ------------------------------------------------------------- lookups

  function SymbolNames(symbols: seq<Symbol>): (names: seq<string>)
    ensures |names| == |symbols| && forall k :: 0 <= k < |symbols| ==> names[k] == symbols[k].name
  {
    seq(|symbols|, k requires 0 <= k < |symbols| => symbols[k].name)
  }

  function SectionNames(sections: seq<Section>): (names: seq<string>)
    ensures |names| == |sections| && forall k :: 0 <= k < |sections| ==> names[k] == sections[k].name
  {
    seq(|sections|, k requires 0 <= k < |sections| => sections[k].name)
  }

  /** The first position at or after `from` holding `name`, as a walk down
   * a linked list finds it. */
  function FindFrom(names: seq<string>, name: string, from: nat): (r: Option<nat>)
    requires from <= |names|
    ensures r.Some? ==> (from <= r.value < |names| && names[r.value] == name &&
      forall k :: from <= k < r.value ==> names[k] != name)
    ensures r.None? ==> forall k :: from <= k < |names| ==> names[k] != name
    decreases |names| - from
  {
    if from == |names| then None
    else if names[from] == name then Some(from)
    else FindFrom(names, name, from + 1)
  }

  function FindSymbol(symbols: seq<Symbol>, name: string): Option<nat>
  {
    FindFrom(SymbolNames(symbols), name, 0)
  }

  function FindSection(sections: seq<Section>, name: string): Option<nat>
  {
    FindFrom(SectionNames(sections), name, 0)
  }

  /** No two entries share a name: the table never creates a name it can
   * already find. */
  predicate Distinct(names: seq<string>)
  {
    forall j, k :: 0 <= j < k < |names| ==> names[j] != names[k]
  }

  // ------------------------------------------------------------ start_pass

  /** The sections laid out from `start`: each one's size is what its
   * counter reached, it starts where the previous one ended (in 16-bit
   * arithmetic), and its counter is reset. */
  function Laid(sections: seq<Section>, start: u16): seq<Section>
  {
    if sections == [] then []
    else
      var s := sections[0];
      [Section(s.name, start, 0, s.spc)] + Laid(sections[1..], Wrap16(start + s.spc))
  }

  /** The total of the counters of `sections`. */
  function SumSpc(sections: seq<Section>): nat
  {
    if sections == [] then 0 else SumSpc(sections[..|sections| - 1]) + sections[|sections| - 1].spc
  }

  function StartPassSpec(st: AsmState, pass: Pass): AsmState
  {
    st.(pass := pass, sections := Laid(st.sections, 0))
  }

  lemma SumSpcSnoc(sections: seq<Section>, s: Section)
    ensures SumSpc(sections + [s]) == SumSpc(sections) + s.spc
  {
    assert (sections + [s])[..|sections|] == sections;
  }

  /** Section `k` of the layout keeps its name, gets its counter as its
   * size, a zero counter, and starts at the 16-bit sum of the counters of
   * the sections declared before it. */
  lemma {:induction false} LaidAt(sections: seq<Section>, start: u16, k: nat)
    requires k < |sections|
    ensures |Laid(sections, start)| == |sections|
    ensures Laid(sections, start)[k] ==
      Section(sections[k].name, Wrap16(start + SumSpc(sections[..k])), 0, sections[k].spc)
    decreases k
  {
    LaidLength(sections, start);
    if k > 0 {
      var s := sections[0];
      var next := Wrap16(start + s.spc);
      LaidAt(sections[1..], next, k - 1);
      SumSpcCons(s, sections[1..][..k - 1]);
      assert [s] + sections[1..][..k - 1] == sections[..k];
      ShiftWrap(start, s.spc, SumSpc(sections[1..][..k - 1]));
    }
  }

  lemma {:induction false} LaidLength(sections: seq<Section>, start: u16)
    ensures |Laid(sections, start)| == |sections|
    decreases |sections|
  {
    if sections != [] {
      LaidLength(sections[1..], Wrap16(start + sections[0].spc));
    }
  }

  lemma {:induction false} SumSpcCons(s: Section, rest: seq<Section>)
    ensures SumSpc([s] + rest) == s.spc + SumSpc(rest)
    decreases |rest|
  {
    if rest != [] {
      var init := rest[..|rest| - 1];
      SumSpcCons(s, init);
      assert ([s] + rest)[..|rest|] == [s] + init;
    }
  }

  lemma ShiftWrap(a: int, b: int, c: int)
    ensures Wrap16(Wrap16(a + b) + c) == Wrap16(a + b + c)
  {
    var m := 0x1_0000;
    var q := (a + b) / m;
    assert Wrap16(a + b) == a + b - q * m;
    assert Wrap16(a + b) + c == (a + b + c) + (-q) * m;
  }

  /** After `start_pass` every section starts where the previous one ends:
   * the sections are laid out back to back, in declaration order, from 0. */
  lemma StartPassContiguous(st: AsmState, pass: Pass, k: nat)
    requires k + 1 < |st.sections|
    ensures |StartPassSpec(st, pass).sections| == |st.sections|
    ensures StartPassSpec(st, pass).sections[0].startAddress == 0
    ensures var laid := StartPassSpec(st, pass).sections;
      laid[k + 1].startAddress == Wrap16(laid[k].startAddress + laid[k].size)
  {
    var laid := StartPassSpec(st, pass).sections;
    LaidAt(st.sections, 0, 0);
    LaidAt(st.sections, 0, k);
    LaidAt(st.sections, 0, k + 1);
    assert st.sections[..k + 1] == st.sections[..k] + [st.sections[k]];
    SumSpcSnoc(st.sections[..k], st.sections[k]);
    ShiftWrap(0, SumSpc(st.sections[..k]), st.sections[k].spc);
  }

  // --------------------------------------------------------- enter_section

  /** `assembler_state_enter_section`: switch to the named section; in the
   * first pass an unknown name appends a new empty section, in the second
   * it is an error. */
  function EnterSectionSpec(st: AsmState, name: string): (r: (bool, AsmState))
  {
    match FindSection(st.sections, name)
    case Some(k) => (true, st.(current := k))
    case None =>
      if st.pass == First then
        (true, st.(sections := st.sections + [Section(name, 0, 0, 0)], current := |st.sections|))
      else (false, st)
  }

  /** Entering a section only switches the current section (and may append
   * one): no existing section, and in particular no counter, changes; on
   * success the current section has the requested name. */
  lemma EnterSectionKeepsCounters(st: AsmState, name: string)
    ensures var (ok, st') := EnterSectionSpec(st, name);
      |st'.sections| >= |st.sections| && st'.sections[..|st.sections|] == st.sections &&
      st'.symbols == st.symbols && st'.output == st.output && st'.pass == st.pass &&
      (ok ==> st'.current < |st'.sections| && st'.sections[st'.current].name == name)
    ensures !(EnterSectionSpec(st, name).0) <==> st.pass == Second && name !in SectionNames(st.sections)
  {
    var (ok, st') := EnterSectionSpec(st, name);
    if FindSection(st.sections, name).None? && st.pass == First {
      assert st'.sections[..|st.sections|] == st.sections;
    }
  }

  // --------------------------------------------------------- define_symbol

  /** The section index and section-relative address a new label gets. */
  function Here(st: AsmState): (Option<nat>, u16)
    requires WellFormed(st)
  {
    (Some(st.current), st.sections[st.current].spc)
  }

  /** `define_symbol`. First pass: bind a new or still undefined name to
   * the current location, and reject a redefinition. Second pass: accept
   * only a name defined in the first pass at this very location. */
  function DefineSymbolSpec(st: AsmState, name: string): (r: (bool, AsmState))
    requires WellFormed(st)
  {
    var (section, address) := Here(st);
    match FindSymbol(st.symbols, name)
    case None =>
      if st.pass == First then (true, st.(symbols := [Symbol(name, address, section, true)] + st.symbols))
      else (false, st)
    case Some(k) =>
      var sym := st.symbols[k];
      if st.pass == First then
        if sym.defined then (false, st)
        else (true, st.(symbols := st.symbols[k := Symbol(sym.name, address, section, true)]))
      else (sym.defined && sym.address == address && sym.section == section, st)
  }

  /** The symbol `name` as the table holds it. */
  function Lookup(st: AsmState, name: string): Option<Symbol>
  {
    match FindSymbol(st.symbols, name)
    case Some(k) => Some(st.symbols[k])
    case None => None
  }

  /** A first-pass definition succeeds exactly when the name is not yet
   * defined, and then binds it, defined, to the current location. */
  lemma DefineFirstPass(st: AsmState, name: string)
    requires WellFormed(st) && st.pass == First
    ensures var (ok, st') := DefineSymbolSpec(st, name);
      (ok <==> !(Lookup(st, name).Some? && Lookup(st, name).value.defined)) &&
      (ok ==> Lookup(st', name) == Some(Symbol(name, Here(st).1, Here(st).0, true))) &&
      (!ok ==> st' == st)
  {
    var (ok, st') := DefineSymbolSpec(st, name);
    var f := FindSymbol(st.symbols, name);
    if ok {
      if f.Some? {
        assert FindSymbol(st'.symbols, name) == f by {
          FindUnchangedNames(st.symbols, st'.symbols, name);
        }
      } else {
        assert SymbolNames(st'.symbols)[0] == name;
      }
    }
  }

  /** Tables with the same names find the same entries. */
  lemma FindUnchangedNames(a: seq<Symbol>, b: seq<Symbol>, name: string)
    requires |a| == |b| && forall k :: 0 <= k < |a| ==> a[k].name == b[k].name
    ensures FindSymbol(a, name) == FindSymbol(b, name)
  {
    assert SymbolNames(a) == SymbolNames(b);
  }

  /** A second-pass definition succeeds exactly when the first pass left
   * the name defined at the location the second pass has reached, and it
   * changes nothing. */
  lemma DefineSecondPass(st: AsmState, name: string)
    requires WellFormed(st) && st.pass == Second
    ensures var (ok, st') := DefineSymbolSpec(st, name);
      st' == st &&
      (ok <==> Lookup(st, name).Some? && Lookup(st, name).value.defined &&
               Lookup(st, name).value.section == Here(st).0 && Lookup(st, name).value.address == Here(st).1)
  {
  }

  // ------------------------------------------------------ get_symbol_value

  /** The 16-bit value of a symbol: its section's start (0 without a
   * section) plus its address. */
  function SymbolAddress(st: AsmState, sym: Symbol): u16
  {
    var base := if sym.section.Some? && sym.section.value < |st.sections| then st.sections[sym.section.value].startAddress else 0;
    Wrap16(base + sym.address)
  }

  /** `get_symbol_value`. First pass: an unknown name is entered, undefined
   * and without a section, and every name has a value. Second pass: a
   * name that is absent or undefined is an error. */
  function SymbolValueSpec(st: AsmState, name: string): (r: (Option<u16>, AsmState))
  {
    match FindSymbol(st.symbols, name)
    case Some(k) =>
      if st.pass == Second && !st.symbols[k].defined then (None, st)
      else (Some(SymbolAddress(st, st.symbols[k])), st)
    case None =>
      if st.pass == First then
        var sym := Symbol(name, 0, None, false);
        (Some(SymbolAddress(st, sym)), st.(symbols := [sym] + st.symbols))
      else (None, st)
  }

  /** A label defined in the first pass and referenced afterwards has the
   * value of the location where it was defined. */
  lemma DefineThenValue(st: AsmState, name: string)
    requires WellFormed(st) && st.pass == First && DefineSymbolSpec(st, name).0
    ensures var st' := DefineSymbolSpec(st, name).1;
      SymbolValueSpec(st', name) ==
        (Some(Wrap16(st.sections[st.current].startAddress + st.sections[st.current].spc)), st')
  {
    DefineFirstPass(st, name);
  }

  /** In the first pass a reference always has a value, and only an unknown
   * name changes the table; in the second pass a reference changes
   * nothing and has a value exactly when the name is defined. */
  lemma SymbolValuePasses(st: AsmState, name: string)
    ensures var (v, st') := SymbolValueSpec(st, name);
      st'.sections == st.sections && st'.current == st.current && st'.pass == st.pass && st'.output == st.output &&
      (st.pass == First ==> v.Some? && (Lookup(st, name).Some? ==> st' == st)) &&
      (st.pass == First && Lookup(st, name).None? ==> v == Some(0) && Lookup(st', name) == Some(Symbol(name, 0, None, false))) &&
      (st.pass == Second ==> st' == st && (v.Some? <==> Lookup(st, name).Some? && Lookup(st, name).value.defined))
  {
    var (v, st') := SymbolValueSpec(st, name);
    if st.pass == First && Lookup(st, name).None? {
      assert SymbolNames(st'.symbols)[0] == name;
    }
  }

  /** What every step of a pass keeps: the pass, at least the sections
   * declared so far, and, in the first pass, the output, to which only the
   * second pass writes. */
  predicate Keeps(a: AsmState, b: AsmState)
  {
    |a.sections| <= |b.sections| && a.pass == b.pass && (a.pass == First ==> b.output == a.output)
  }

  /** The same sections, current section, pass and output: all a symbol
   * reference may change is the symbol table. */
  predicate SameLayout(a: AsmState, b: AsmState)
  {
    a.sections == b.sections && a.current == b.current && a.pass == b.pass && a.output == b.output
  }

  /** A reference keeps the layout, and the table well formed: a name it
   * enters has no section. */
  lemma SymbolValueKeeps(st: AsmState, name: string)
    ensures SameLayout(st, SymbolValueSpec(st, name).1)
    ensures WellFormed(st) ==> WellFormed(SymbolValueSpec(st, name).1)
  {
    var st' := SymbolValueSpec(st, name).1;
    if WellFormed(st) && st' != st {
      assert st'.symbols == [Symbol(name, 0, None, false)] + st.symbols;
      forall k | 0 <= k < |st'.symbols| && st'.symbols[k].section.Some?
        ensures st'.symbols[k].section.value < |st'.sections|
      {
        assert k > 0 && st'.symbols[k] == st.symbols[k - 1];
      }
    }
  }

  /** Definitions and references never put a second entry of a name into
   * the symbol table. */
  lemma TablesStayDistinct(st: AsmState, name: string)
    requires WellFormed(st) && Distinct(SymbolNames(st.symbols))
    ensures Distinct(SymbolNames(DefineSymbolSpec(st, name).1.symbols))
    ensures Distinct(SymbolNames(SymbolValueSpec(st, name).1.symbols))
    ensures WellFormed(DefineSymbolSpec(st, name).1) && WellFormed(SymbolValueSpec(st, name).1)
  {
    var f := FindSymbol(st.symbols, name);
    var names := SymbolNames(st.symbols);
    if f.None? {
      PrependDistinct(names, name);
      assert SymbolNames(DefineSymbolSpec(st, name).1.symbols) == [name] + names || DefineSymbolSpec(st, name).1 == st;
      assert SymbolNames(SymbolValueSpec(st, name).1.symbols) == [name] + names || SymbolValueSpec(st, name).1 == st;
    } else {
      assert SymbolNames(DefineSymbolSpec(st, name).1.symbols) == names;
    }
  }

  lemma PrependDistinct(names: seq<string>, name: string)
    requires Distinct(names) && forall k :: 0 <= k < |names| ==> names[k] != name
    ensures Distinct([name] + names)
  {
  }

  // ------------------------------------------------- assembler_output_word

  /** `assembler_output_word`: the word's address is the current section's
   * start plus its counter (16-bit); in the second pass the high byte goes
   * to byte address `2 * address` and the low byte after it (16-bit); the
   * counter always advances by one. */
  function OutputWordSpec(st: AsmState, word: u16): (r: (u16, AsmState))
    requires WellFormed(st)
  {
    var s := st.sections[st.current];
    var wordAddress := Wrap16(s.startAddress + s.spc);
    var byteAddress := Wrap16(2 * wordAddress);
    var output := if st.pass == Second
      then st.output + [ByteWrite(byteAddress, word / 0x100), ByteWrite(Wrap16(byteAddress + 1), word % 0x100)]
      else st.output;
    (wordAddress, st.(sections := st.sections[st.current := s.(spc := Wrap16(s.spc + 1))], output := output))
  }

  /** The two bytes written are the word, big-endian, at an even byte
   * address and the odd one after it; only the current section's counter
   * changes, by one. */
  lemma OutputWordBytes(st: AsmState, word: u16)
    requires WellFormed(st)
    ensures var (a, st') := OutputWordSpec(st, word);
      WellFormed(st') && st'.symbols == st.symbols && st'.current == st.current && st'.pass == st.pass &&
      |st'.sections| == |st.sections| &&
      (forall k :: 0 <= k < |st.sections| && k != st.current ==> st'.sections[k] == st.sections[k]) &&
      st'.sections[st.current].spc == Wrap16(st.sections[st.current].spc + 1) &&
      (st.pass == First ==> st'.output == st.output) &&
      (st.pass == Second ==> (|st'.output| == |st.output| + 2 && st'.output[..|st.output|] == st.output &&
        var hi, lo := st'.output[|st.output|], st'.output[|st.output| + 1];
        hi.value * 0x100 + lo.value == word && hi.address % 2 == 0 && lo.address == hi.address + 1 &&
        hi.address == Wrap16(2 * a)))
  {
    var (a, st') := OutputWordSpec(st, word);
    if st.pass == Second {
      assert st'.output[..|st.output|] == st.output;
      var b := Wrap16(2 * a);
      assert b % 2 == 0 by { EvenWrap(a); }
    }
  }

  lemma EvenWrap(a: u16)
    ensures Wrap16(2 * a) % 2 == 0
  {
    var q := (2 * a) / 0x1_0000;
    assert Wrap16(2 * a) == 2 * (a - q * 0x8000);
  }

  /** One more section of `start_pass`'s walk laid out. */
  lemma LaidStep(orig: seq<Section>, k: nat, prefix: seq<Section>, start: u16)
    requires k < |orig| && prefix + Laid(orig[k..], start) == Laid(orig, 0)
    ensures orig[k..][1..] == orig[k + 1..]
    ensures (prefix + [Section(orig[k].name, start, 0, orig[k].spc)]) + Laid(orig[k + 1..], Wrap16(start + orig[k].spc)) == Laid(orig, 0)
  {
    assert orig[k..][1..] == orig[k + 1..];
  }

  lemma UpdateAtSeam<T>(prefix: seq<T>, x: T, rest: seq<T>)
    requires rest != []
    ensures (prefix + rest)[|prefix| := x] == (prefix + [x]) + rest[1..]
  {
  }

  /** The walk of `assembler_state_start_pass` over the sections, in
   * declaration order, with a running 16-bit start address. */
  method LayOut(orig: seq<Section>) returns (table: seq<Section>)
    ensures table == Laid(orig, 0)
  {
    var sectionStart: u16 := 0;
    var k := 0;
    table := orig;
    ghost var prefix: seq<Section> := [];
    while k < |table|
      invariant k <= |table| == |orig| && |prefix| == k
      invariant table == prefix + orig[k..]
      invariant prefix + Laid(orig[k..], sectionStart) == Laid(orig, 0)
    {
      var s := table[k];
      var laid := Section(s.name, sectionStart, 0, s.spc);
      LaidStep(orig, k, prefix, sectionStart);
      UpdateAtSeam(prefix, laid, orig[k..]);
      table := table[k := laid];
      prefix := prefix + [laid];
      sectionStart := Wrap16(sectionStart + s.spc);
      k := k + 1;
    }
    assert orig[k..] == [];
  }

  // ---------------------------------------------------------------- class

  const InitialState: AsmState :=
    AsmState([Section(DefaultSectionName, 0, 0, 0)], [], 0, First, [])

  /** `struct assembler_state` and the functions that update it. */
  class Assembler {
    var sections: seq<Section>
    var symbols: seq<Symbol>
    var current: nat
    var pass: Pass
    var output: seq<ByteWrite>

    function Snapshot(): AsmState
      reads this
    {
      AsmState(sections, symbols, current, pass, output)
    }

    predicate Valid()
      reads this
    {
      WellFormed(Snapshot())
    }

    /** `assembler_state_init`: empty tables but for the default section,
     * which is current. */
    constructor ()
      ensures Snapshot() == InitialState && Valid()
    {
      sections := [Section(DefaultSectionName, 0, 0, 0)];
      symbols := [];
      current := 0;
      pass := First;
      output := [];
    }

    /** `lookup_symbol`: a walk down the list to the first entry with the
     * name. */
    method LookupSymbol(name: string) returns (r: Option<nat>)
      ensures r == FindSymbol(symbols, name)
    {
      var k := 0;
      while k < |symbols|
        invariant k <= |symbols|
        invariant FindSymbol(symbols, name) == FindFrom(SymbolNames(symbols), name, k)
      {
        if symbols[k].name == name {
          return Some(k);
        }
        k := k + 1;
      }
      return None;
    }

    /** `lookup_section`. */
    method LookupSection(name: string) returns (r: Option<nat>)
      ensures r == FindSection(sections, name)
    {
      var k := 0;
      while k < |sections|
        invariant k <= |sections|
        invariant FindSection(sections, name) == FindFrom(SectionNames(sections), name, k)
      {
        if sections[k].name == name {
          return Some(k);
        }
        k := k + 1;
      }
      return None;
    }

    /** `assembler_state_enter_section`. */
    method EnterSection(name: string) returns (ok: bool)
      requires Valid()
      modifies this
      ensures (ok, Snapshot()) == EnterSectionSpec(old(Snapshot()), name) && Valid()
    {
      var found := LookupSection(name);
      if found.None? {
        if pass == First {
          sections := sections + [Section(name, 0, 0, 0)];
          current := |sections| - 1;
          return true;
        }
        return false;
      }
      current := found.value;
      return true;
    }

    /** `assembler_state_start_pass`: one walk over the sections in
     * declaration order with a running 16-bit start address. */
    method StartPass(p: Pass)
      requires Valid()
      modifies this
      ensures Snapshot() == StartPassSpec(old(Snapshot()), p)
      ensures Valid()
    {
      LaidLength(sections, 0);
      pass := p;
      sections := LayOut(sections);
    }

    /** `create_symbol` followed by the assignments `define_symbol` and
     * `get_symbol_value` make: the new entry goes to the head of the list. */
    method PushSymbol(sym: Symbol)
      modifies this
      ensures symbols == [sym] + old(symbols)
      ensures sections == old(sections) && current == old(current) && pass == old(pass) && output == old(output)
    {
      symbols := [sym] + symbols;
    }

    /** `define_symbol`. */
    method DefineSymbol(name: string) returns (ok: bool)
      requires Valid()
      modifies this
      ensures (ok, Snapshot()) == DefineSymbolSpec(old(Snapshot()), name) && Valid()
    {
      var sym := LookupSymbol(name);
      var address := sections[current].spc;
      if pass == First {
        if sym.None? {
          PushSymbol(Symbol(name, address, Some(current), true));
        } else if !symbols[sym.value].defined {
          symbols := symbols[sym.value := Symbol(symbols[sym.value].name, address, Some(current), true)];
        } else {
          return false;
        }
      } else {
        if sym.None? || !symbols[sym.value].defined {
          return false;
        } else if symbols[sym.value].address != address || symbols[sym.value].section != Some(current) {
          return false;
        }
      }
      return true;
    }

    /** `get_symbol_value`. */
    method GetSymbolValue(name: string) returns (ok: bool, value: u16)
      requires Valid()
      modifies this
      ensures (if ok then Some(value) else None, Snapshot()) == SymbolValueSpec(old(Snapshot()), name) && Valid()
    {
      var found := LookupSymbol(name);
      var sym;
      if pass == First {
        if found.Some? {
          sym := symbols[found.value];
        } else {
          sym := Symbol(name, 0, None, false);
          PushSymbol(sym);
        }
      } else {
        if found.None? || !symbols[found.value].defined {
          return false, 0;
        }
        sym := symbols[found.value];
      }
      var sectionAddress := 0;
      if sym.section.Some? {
        sectionAddress := sections[sym.section.value].startAddress;
      }
      return true, Wrap16(sectionAddress + sym.address);
    }

    /** `assembler_output_word`. */
    method OutputWord(word: u16) returns (wordAddress: u16)
      requires Valid()
      modifies this
      ensures (wordAddress, Snapshot()) == OutputWordSpec(old(Snapshot()), word) && Valid()
    {
      var s := sections[current];
      wordAddress := Wrap16(s.startAddress + s.spc);
      if pass == Second {
        var address := Wrap16(2 * wordAddress);
        output := output + [ByteWrite(address, word / 0x100), ByteWrite(Wrap16(address + 1), word % 0x100)];
      }
      sections := sections[current := s.(spc := Wrap16(s.spc + 1))];
    }
  }
}
