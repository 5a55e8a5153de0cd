/** The line-and-column reader of the C tools (`localized_file.c`, the same
 * code in `assembler/` and in `common/`): a file read one character at a
 * time, which knows where in the file the last character came from and
 * can push one character back.
 *
 * The file is its whole contents, a string of byte-valued characters,
 * and a read position; the file system is a map from names to contents.
 * A read that fails half way through a file is a parameter of `Getc`. */
module LocalizedFile {
  /** What `fgetc` returns at the end of the file. */
  const Eof: int := -1

  /** `struct location` without the file name, which never changes. */
  datatype Location = Location(line: nat, column: nat)

  /** The location after one character: a newline starts the next line
   * at column 0, any other character moves one column on. */
  function Step(loc: Location, c: char): (next: Location)
  {
    if c == '\n' then Location(loc.line + 1, 0) else Location(loc.line, loc.column + 1)
  }

  /** The location after reading `text` from the start of a file. */
  function LocationAfter(text: string): (loc: Location)
  {
    if text == [] then Location(1, 0)
    else Step(LocationAfter(text[..|text| - 1]), text[|text| - 1])
  }

  function NewlineCount(text: string): (n: nat)
    ensures n <= |text|
  {
    if text == [] then 0
    else NewlineCount(text[1..]) + if text[0] == '\n' then 1 else 0
  }

  lemma {:induction false} NewlineCountAppend(text: string, c: char)
    ensures NewlineCount(text + [c]) == NewlineCount(text) + if c == '\n' then 1 else 0
  {
    if text != [] {
      assert (text + [c])[1..] == text[1..] + [c];
      NewlineCountAppend(text[1..], c);
    }
  }

  /** The location after a text, described without stepping: the line is
   * one more than the number of newlines read, and the column is the
   * number of characters since the last newline (or since the start). */
  lemma {:induction false} LocationAfterCounts(text: string)
    ensures LocationAfter(text).line == 1 + NewlineCount(text)
    ensures LocationAfter(text).column <= |text|
    ensures forall i :: |text| - LocationAfter(text).column <= i < |text| ==> text[i] != '\n'
    ensures LocationAfter(text).column < |text| ==> text[|text| - 1 - LocationAfter(text).column] == '\n'
  {
    if text != [] {
      var prefix := text[..|text| - 1];
      LocationAfterCounts(prefix);
      assert prefix + [text[|text| - 1]] == text;
      NewlineCountAppend(prefix, text[|text| - 1]);
    }
  }

  /** A `struct localized_file`. */
  class LocalizedFile {
    const filename: string
    /** Whether `fopen` succeeded (`fp` is not null). */
    const isOpen: bool
    /** The contents of the file; empty when it could not be opened. */
    const contents: string
    var pos: nat
    var location: Location
    /** The pushed-back character; only a positive value counts as one. */
    var ungetcChar: int

    /** The location always describes the characters read so far. */
    predicate Valid()
      reads this
    {
      pos <= |contents| && location == LocationAfter(contents[..pos])
    }

    /** `localized_file_open`: line 1, column 0, nothing pushed back; it
     * fails when the file does not exist. */
    constructor (name: string, fileSystem: map<string, string>)
      ensures Valid() && filename == name && pos == 0
      ensures location == Location(1, 0) && ungetcChar == -1
      ensures isOpen == (name in fileSystem)
      ensures contents == if name in fileSystem then fileSystem[name] else []
    {
      filename := name;
      isOpen := name in fileSystem;
      contents := if name in fileSystem then fileSystem[name] else [];
      pos := 0;
      location := Location(1, 0);
      ungetcChar := -1;
    }

    /** `localized_file_getc`: a pushed-back character first, without
     * moving the location; otherwise the next character of the file,
     * stepping the location, or `Eof` at the end, leaving it. A read that
     * fails (`readFails`, before the end of the file) gives `Eof` and
     * `false`. */
    method Getc(readFails: bool) returns (ok: bool, c: int)
      requires Valid() && isOpen
      modifies this
      ensures Valid()
      ensures old(ungetcChar) > 0 ==>
        ok && c == old(ungetcChar) && ungetcChar == -1 && pos == old(pos) && location == old(location)
      ensures old(ungetcChar) <= 0 && old(pos) < |contents| && !readFails ==>
        ok && c == contents[old(pos)] as int && pos == old(pos) + 1 &&
        location == Step(old(location), contents[old(pos)]) && ungetcChar == old(ungetcChar)
      ensures old(ungetcChar) <= 0 && old(pos) < |contents| && readFails ==>
        !ok && c == Eof && pos == old(pos) && location == old(location) && ungetcChar == old(ungetcChar)
      ensures old(ungetcChar) <= 0 && old(pos) == |contents| ==>
        ok && c == Eof && pos == old(pos) && location == old(location) && ungetcChar == old(ungetcChar)
    {
      if ungetcChar > 0 {
        c := ungetcChar;
        ungetcChar := -1;
        return true, c;
      }
      if pos == |contents| {
        return true, Eof;
      }
      if readFails {
        return false, Eof;
      }
      c := contents[pos] as int;
      assert contents[..pos + 1] == contents[..pos] + [contents[pos]];
      location := Step(location, contents[pos]);
      pos := pos + 1;
      ok := true;
    }

    /** `localized_file_ungetc`: `c` replaces whatever was pushed back
     * before. */
    method Ungetc(c: int)
      requires Valid()
      modifies this
      ensures Valid() && ungetcChar == c && pos == old(pos) && location == old(location)
    {
      ungetcChar := c;
    }
  }

  /** Pushing back a character and reading returns it; pushing back 0 or
   * `Eof` pushes back nothing, so the next read comes from the file. */
  method UngetThenGet(f: LocalizedFile, c: int) returns (got: int)
    requires f.Valid() && f.isOpen && f.pos < |f.contents|
    modifies f
    ensures c > 0 ==> got == c && f.location == old(f.location)
    ensures c <= 0 ==> got == f.contents[old(f.pos)] as int && f.location == Step(old(f.location), f.contents[old(f.pos)])
  {
    f.Ungetc(c);
    var ok;
    ok, got := f.Getc(false);
  }
}
