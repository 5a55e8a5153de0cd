# Pickle RISC toolchain, modelled in Dafny

Pickle RISC is a small 16-bit RISC processor. Its repository holds several generations of a toolchain, and this project models the core of each:

- **The C assembler** (`assembler/`) is a two-pass assembler. A localized reader tracks line and column (`LocalizedFile`). The tokenizer (`CTokenizer`) produces identifiers, `:`, `,`, end of line, end of file and an error token for anything else, numbers included. A shunting-yard expression evaluator (`CExpressions`) has its meaning stated over an expression tree (`ExprSemantics`, `ExprPrecedence`). Both it and the directives read a token stream that may also hold numbers, strings and operators, the token kinds `tokenizer.h` declares but the tokenizer never produces. The symbol and section tables keep addresses stable across the two passes (`AsmTables`). The instruction encoder, the driver with `.include` and the `.section` directive are in `CAssembler`, the `.db`/`.dw`/`.dd` directives in `PseudoOps`, and the buffered Intel HEX writer in `IhexWriter`. The growable stacks of `stack.h` are in `CStack`, and the helpers of `util.c` in `CUtil`.
- **The C emulator's devices.** `common/ihex.c`, the Intel HEX reader, is modelled in `IhexReader`. The memory device, which loads an Intel HEX image into words, is in `DeviceMemory`. The UART with its receive ring is in `Uart`.
- **The generators in Python.** `generate_instructions.py`, which builds the assembler's instruction table, is in `GenInstructions`. `generate_instruction_handler.py`, which builds the emulator's opcode dispatch, is in `HandlerGen`.
- **The Rust toolchain.**
  - Instruction-set definitions, and the code generated from them by `build.rs`, are split over several modules. `InstructionSet` holds the definitions. `OpcodeTable` holds the opcode table and its ranges. `FieldLayout` holds the argument packing and `Microcode` the microcode steps. `Generators` holds naming and sizing. `WordFields` and `FieldUtil` hold bit fields and `field`/`sign_extend_field`.
  - The hand-written instruction encoder and decoder are in `CoreInstruction`, and the disassembler in `Disassembler`.
  - The assembler's pieces are modelled as follows. `Files` holds file locations. `Lexer` holds number and string lexing. `ExprParser` holds the checked expression parser and `LegacyParser` the older parser. `AssemblerState` and `ParseState` hold the two-pass symbol state. `MacroCollect` holds macro collection. `Registers` holds register names, `DecimalText` number text, and `I32` the checked `i32` arithmetic.
  - Segments, images and ROM building are in `Image`. The emulator types, CPU and memory map are in `CpuTypes`, `Cpu`, `EmulatorCpu`, `Memory` and `System`.
- **The instruction-set design script** (`new_instruction_set.py`). Huffman opcode assignment is in `OpcodeHuffman`. Argument-field placement and its cost are in `FieldAllocation`. Python's bit operations are in `PyBits`.
- **The 8-bit prototype assembler** (`trilo8bit/assembler/`). Its two passes and the linking list are in `TriloAssembler`, its data helpers in `TriloHelpers`, and its argument fields in `TriloInstructions`.

Throughout the project:
- Pure code becomes datatypes, functions and lemmas.
- Code that updates objects in place becomes classes with `modifies` clauses. Each method is proved against a specification function.
- Where the source has a bug, two definitions exist side by side. A member selected by `asWritten` follows the code as written, and the corrected definition is the one the properties are proved about (see "## Findings").

Files, standard input and output, the clock and the random number generator are replaced by parameters. File contents are passed in as token or character sequences. Output goes to sequences the methods append to.


## Model

| member | source | states |
|---|---|---|
| `AsmTables.FindFrom` | assembler/assembler.c:58-66 | the first position at or after the start holding the name, or none when no later entry has it |
| `AsmTables.LaidAt` | assembler/assembler.c:160-183 | after the layout walk, section k keeps its name, gets its counter as its size, a zero counter, and starts at the 16-bit sum of the counters of the sections declared before it |
| `AsmTables.StartPassContiguous` | assembler/assembler.c:160-183 | after `start_pass` the first section starts at 0 and each section starts where the previous one ends, in declaration order |
| `AsmTables.EnterSectionKeepsCounters` | assembler/assembler.c:107-128 | entering a section never changes an existing section or counter (a first-pass unknown name appends one), and on success the current section has the requested name; it fails exactly in the second pass for a name the first pass did not create |
| `AsmTables.DefineFirstPass` | assembler/assembler.c:207-233 | a first-pass label definition succeeds exactly when the name is not yet defined, then binds it, defined, to the current section and counter; a redefinition changes nothing |
| `AsmTables.DefineSecondPass` | assembler/assembler.c:234-248 | a second-pass label definition changes nothing and succeeds exactly when the first pass defined the name in the same section at the same address |
| `AsmTables.DefineThenValue` | assembler/assembler.c:258-287 | a label defined in the first pass and then referenced has the value section start plus counter at its definition |
| `AsmTables.SymbolValuePasses` | assembler/assembler.c:258-287 | a first-pass reference always has a value and enters an unknown name as undefined with value 0; a second-pass reference changes nothing and has a value exactly when the name is defined |
| `AsmTables.SymbolValueKeeps` | assembler/assembler.c:258-287 | a symbol reference changes only the symbol table and keeps the state well formed |
| `AsmTables.TablesStayDistinct` | assembler/assembler.c:42-56 | definitions and references never put a second entry with the same name into the symbol table |
| `AsmTables.OutputWordBytes` | assembler/assembler.c:526-538 | `assembler_output_word` advances only the current section's counter by one; in the second pass it appends the high byte at byte address `2*addr` and the low byte at the next address, and in the first pass it writes nothing |
| `AsmTables.LayOut` | assembler/assembler.c:163-180 | the section walk with a running 16-bit start address computes exactly the layout `Laid` of the table |
| `AsmTables.Assembler.constructor` | assembler/assembler.c:130-158 | a new state has no symbols and one current `.text` section with all counters 0, in the first pass |
| `AsmTables.Assembler.LookupSymbol` | assembler/assembler.c:58-66 | the list walk returns the first symbol entry with the name |
| `AsmTables.Assembler.LookupSection` | assembler/assembler.c:96-105 | the list walk returns the first section entry with the name |
| `AsmTables.Assembler.EnterSection` | assembler/assembler.c:107-128 | the object's new state and result are those of `EnterSectionSpec` |
| `AsmTables.Assembler.StartPass` | assembler/assembler.c:160-183 | the object's new state is `StartPassSpec`: the pass is set and the sections are laid out |
| `AsmTables.Assembler.PushSymbol` | assembler/assembler.c:42-56 | `create_symbol` puts the new entry at the head of the symbol list and changes nothing else |
| `AsmTables.Assembler.DefineSymbol` | assembler/assembler.c:207-253 | the object's new state and result are those of `DefineSymbolSpec` |
| `AsmTables.Assembler.GetSymbolValue` | assembler/assembler.c:258-287 | the object's new state, success and value are those of `SymbolValueSpec` |
| `AsmTables.Assembler.OutputWord` | assembler/assembler.c:526-538 | the object's new state and returned word address are those of `OutputWordSpec` |
| `CAssembler.ParseGpr` | assembler/assembler.c:291-303 | the name test of `parse_gpr`: the result is -1 or a register number below 8 (the type `assert` that follows at line 17 is stated by `OperandAt`) |
| `CAssembler.GprRoundTrip` | assembler/assembler.c:295-303 | each name `r0`..`r7` reads as its register, and a token that reads as a register is exactly that register's name |
| `CAssembler.CrIndex` | assembler/assembler.c:320-350 | the result is the index of the control-register name the identifier equals, and -1 exactly when the token is not one of the eight names |
| `CAssembler.CrRoundTrip` | assembler/assembler.c:321-336 | each of the eight control-register names reads back as its own index |
| `CAssembler.ParseCr` | assembler/assembler.c:329-337 | the loop over the name table computes `CrIndex` |
| `CAssembler.NumberForInstruction` | assembler/assembler.c:355-384 | a failure is an assertion failure when the size is 15 or more and an out-of-range error otherwise |
| `CAssembler.NumberForInstructionMeaning` | assembler/assembler.c:362-383 | with the intended bound, an operand is accepted exactly when the field can carry it, and the field then reads back as the operand (two's complement when signed) |
| `CAssembler.NumberAsWritten` | assembler/assembler.c:365-383 | as written, unsigned 8 in a 3-bit field passes the range check and does not fit the field, so the assertion at line 442 fires; with the intended bound it is out of range |
| `CAssembler.OperandAt` | assembler/assembler.c:417-435 | reading one operand moves forward and changes only the symbol table; a register operand is one token and leaves the state alone; as written it fails with `AssertionFailed` exactly when that token is not an identifier (the `assert` of `push_identifier_to_buffer`), and an accepted register is the token that names it |
| `CAssembler.RegisterNotIdentifier` | assembler/assembler.c:16-17 | a register operand that is not an identifier, such as the `5` of `add 5, r1, r2`, aborts on the `assert` as written and is the "expected register" error when corrected |
| `CAssembler.Separator` | assembler/assembler.c:448-469 | the separator is accepted exactly when it is `,` before a further argument, or the end of line or file after the last one |
| `CAssembler.OperandsFrom` | assembler/assembler.c:411-470 | a successful argument loop yields one value per remaining argument and changes only the symbol table |
| `CAssembler.OperandsFacts` | assembler/assembler.c:411-470 | a successful loop keeps the values read before and yields one value per argument, each fitting its field |
| `CAssembler.ComposeFields` | assembler/assembler.c:442-444 | OR-ing the operands into a valid entry's base encoding leaves each operand in its own field, the fields still to come zero, and a 16-bit word |
| `CAssembler.ComposeElsewhere` | assembler/assembler.c:442-444 | bits outside every operand field keep the base encoding's value |
| `CAssembler.InstructionWord` | assembler/assembler.c:407-481 | an instruction is accepted exactly when its operands are; it then emits one word holding every operand in its field and the base encoding elsewhere, written high byte first in the second pass |
| `CAssembler.FindInstruction` | assembler/assembler.c:390-395 | the first table entry at or after the start with the mnemonic, or none when no later entry has it |
| `CAssembler.Instruction` | assembler/assembler.c:386-482 | handling an instruction line moves forward and keeps the pass, the existing sections and, in the first pass, the output |
| `CAssembler.CText` | assembler/pseudo_instructions.c:159 | the C string of a string token is its bytes up to the first zero byte |
| `CAssembler.Pseudo` | assembler/pseudo_instructions.c:192-211 | each pseudo-instruction moves forward and keeps what a pass keeps; an unknown leading-dot mnemonic is an error |
| `CAssembler.Statement` | assembler/assembler.c:501-507 | an identifier followed by `:` is a label, one starting with `.` a pseudo-instruction, anything else an instruction; every statement moves forward |
| `CAssembler.Assemble` | assembler/assembler.c:484-509 | assembling a file keeps the pass, the existing sections and, in the first pass, the output |
| `CAssembler.Lines` | assembler/assembler.c:487-508 | the line loop skips empty lines, stops with success at end of file and with an error at anything but an identifier, and keeps what a pass keeps |
| `CAssembler.Include` | assembler/pseudo_instructions.c:158-170 | an included file is assembled in the same state and the caller's current section is restored afterwards, whatever the file did; it fails exactly when the file cannot be opened |
| `CAssembler.AssembleFiles` | assembler/assembler.c:511-524 | the files are assembled in order, and the run keeps what a pass keeps |
| `CAssembler.LookupInstruction` | assembler/assembler.c:390-395 | the table walk finds the first entry with the mnemonic |
| `CAssembler.EmitInstruction` | assembler/assembler.c:407-474 | the argument loop, OR-ing each operand into `encoding`, and the output of the word have exactly the effect `EncodeInstruction` states |
| `CAssembler.EncodeFails` | assembler/assembler.c:437-469 | when an operand or separator fails, the instruction fails with that error and emits nothing |
| `CAssembler.EncodeSucceeds` | assembler/assembler.c:472-481 | when every operand is read, the instruction emits exactly the composed word |
| `CAssembler.ReadOperand` | assembler/assembler.c:417-435 | reading one operand has the effect of the corrected `OperandAt` (a register operand that is not an identifier is the ordinary register error), and its value fits its field |
| `CAssembler.ProcessPseudo` | assembler/pseudo_instructions.c:192-211 | the dispatch has exactly the effect of `Pseudo` |
| `CAssembler.ProcessStatement` | assembler/assembler.c:501-507 | one statement has exactly the effect of `Statement` |
| `CAssembler.AssembleTokens` | assembler/assembler.c:484-509 | `assemble`, with `.include` handled by a nested call, has exactly the effect of `Assemble` |
| `CAssembler.AssembleMultipleFiles` | assembler/assembler.c:511-524 | the loop over the files has exactly the effect of `AssembleFiles` |
| `PseudoOps.ParseSep` | assembler/pseudo_instructions.c:13-33 | end of line or end of file finishes; `,` continues exactly when continuation is allowed; anything else is an error |
| `PseudoOps.EmitAll` | assembler/pseudo_instructions.c:40-54 | emission keeps the state well formed and, as intended, never fails |
| `PseudoOps.WordBytesDecode` | assembler/assembler.c:526-538 | the bytes written for a run of words are two per word, high byte first, at twice the word address |
| `PseudoOps.EmitAllEffect` | assembler/pseudo_instructions.c:98-116 | emitting words as intended advances the current counter by their number and changes nothing else but the output, which in the second pass grows by exactly their bytes |
| `PseudoOps.EmitAllAppend` | assembler/pseudo_instructions.c:98-140 | emitting `a + b` is emitting `a` and then, if that succeeded, `b` |
| `PseudoOps.Low16` | assembler/pseudo_instructions.c:104 | `v & 0xffff` is the 16-bit word congruent to `v` |
| `PseudoOps.Dw` | assembler/pseudo_instructions.c:98-116 | `.dw` moves forward and keeps the state well formed |
| `PseudoOps.DwList` | assembler/pseudo_instructions.c:98-116 | `.dw v1, ..., vn` succeeds and emits exactly the words `vk & 0xffff`, in order |
| `PseudoOps.DdHalves` | assembler/pseudo_instructions.c:124-128 | the two words of a `.dd` operand, high word first, put back together give the operand as an unsigned 32-bit value |
| `PseudoOps.Dd` | assembler/pseudo_instructions.c:118-140 | `.dd` moves forward and keeps the state well formed |
| `PseudoOps.DdList` | assembler/pseudo_instructions.c:118-140 | `.dd v1, ..., vn` succeeds and emits the high then the low half of each operand, in order |
| `PseudoOps.Pair` | assembler/pseudo_instructions.c:41 | the word of two bytes has the first in its high half and the second in its low half |
| `PseudoOps.PromotedPair` | assembler/pseudo_instructions.c:41 | on sign-extended `char`s the pair is right while the low byte is below 0x80, and otherwise 0xff covers the high byte |
| `PseudoOps.PairAsWritten` | assembler/pseudo_instructions.c:41 | the word `.db` makes as written equals the intended pair for a low byte below 0x80 and has high byte 0xff otherwise |
| `PseudoOps.PackString` | assembler/pseudo_instructions.c:39-55 | a string of n bytes becomes `(n+1)/2` words |
| `PseudoOps.PackStringBytes` | assembler/pseudo_instructions.c:39-55 | as intended, the words of a `.db` string carry its bytes in order, high byte first, with a zero low byte after an odd last byte |
| `PseudoOps.DbString` | assembler/pseudo_instructions.c:38-61 | `.db "..."` moves forward and keeps the state well formed; it must be followed by the end of line |
| `PseudoOps.DbFrom` | assembler/pseudo_instructions.c:65-94 | the expression form of `.db` moves forward and keeps the state well formed |
| `PseudoOps.Db` | assembler/pseudo_instructions.c:35-96 | `.db` moves forward and keeps the state well formed |
| `PseudoOps.DbList` | assembler/pseudo_instructions.c:65-94 | `.db v1, ..., vn` succeeds and emits the low bytes of the values paired into words, a lone last byte with a zero low byte, exactly as a string of those bytes |
| `PseudoOps.DbListAfter` | assembler/pseudo_instructions.c:73-90 | the same with a high byte already pending |
| `PseudoOps.EmitAllKeeps` | assembler/assembler.c:526-538 | emission keeps the pass and the sections, and writes nothing in the first pass |
| `PseudoOps.DwKeeps` | assembler/pseudo_instructions.c:98-116 | `.dw` reads forward and keeps what a pass keeps |
| `PseudoOps.DdKeeps` | assembler/pseudo_instructions.c:118-140 | `.dd` reads forward and keeps what a pass keeps |
| `PseudoOps.DbFromKeeps` | assembler/pseudo_instructions.c:65-94 | the expression form of `.db` reads forward and keeps what a pass keeps |
| `PseudoOps.DbKeeps` | assembler/pseudo_instructions.c:35-96 | `.db` reads forward and keeps what a pass keeps |
| `PseudoOps.AddressZeroAsWritten` | assembler/pseudo_instructions.c:104-105 | as written, `.dw x` for a symbol `x` that has a value, emitted at word address 0, reports failure, because the returned address 0 reads as false; as intended it succeeds |
| `PseudoOps.SignExtendedAsWritten` | assembler/pseudo_instructions.c:41 | as written the string bytes 0x01 0x80 become 0xff80; as intended they become 0x0180 |
| `PseudoOps.PackStringAscii` | assembler/pseudo_instructions.c:39-55 | the two readings agree on strings whose bytes are all below 0x80 |
| `PseudoOps.ProcessDw` | assembler/pseudo_instructions.c:98-116 | the loop has exactly the effect of `Dw` |
| `PseudoOps.ProcessDd` | assembler/pseudo_instructions.c:118-140 | the loop has exactly the effect of `Dd` |
| `PseudoOps.EmitString` | assembler/pseudo_instructions.c:39-55 | the pair loop and the lone last byte emit exactly `PackString` of the string |
| `PseudoOps.ProcessDb` | assembler/pseudo_instructions.c:35-96 | `process_db` has exactly the effect of `Db` |
| `CExpressions.ShiftLeft` | assembler/expressions.c:44 | `<<` is defined exactly for a non-negative operand, a shift of 0..31 and a result that fits, and is then multiplication by `2^s` |
| `CExpressions.ShiftRight` | assembler/expressions.c:45 | `>>` is defined exactly for a shift of 0..31, and is then floor division by `2^s` |
| `CExpressions.Apply` | assembler/expressions.c:33-54 | the logical and comparison operators give 0 or 1; only arithmetic and shifts can be undefined; `+ - *` and unary `-` compute the exact integer result when defined |
| `CExpressions.OperatorFor` | assembler/expressions.c:83-93 | the entry found has the token, and it is binary exactly when the previous item was a value |
| `CExpressions.OperatorForEntry` | assembler/expressions.c:56-81 | every table entry is found by its own token and arity |
| `CExpressions.OperatorForComplete` | assembler/expressions.c:83-93 | `find_operator` fails exactly for a token and arity no entry has |
| `CExpressions.FindOperator` | assembler/expressions.c:83-93 | the table walk computes `OperatorFor` |
| `CExpressions.OperatorChoice` | assembler/expressions.c:56-93 | after a value `+` and `-` are binary, elsewhere unary; `(` is an operator only where a value is expected; `)` and `**` are no operator |
| `CExpressions.Pop` | assembler/expressions.c:95-117 | a successful pop removes exactly the top operator |
| `CExpressions.PopShape` | assembler/expressions.c:95-117 | a pop fails for want of values exactly when fewer values than the operator's arity are stacked; otherwise those values are replaced by one result |
| `CExpressions.ReduceShape` | assembler/expressions.c:166-202 | a successful reduction leaves part of the operator stack, whose top, if any, is where it had to stop: `(`, or a binary operator of lower priority or a unary one of lower or equal priority |
| `CExpressions.PopOperator` | assembler/expressions.c:95-117 | `pop_operator` computes `Pop` |
| `CExpressions.PopWhile` | assembler/expressions.c:166-202 | the pop loops compute `Reduce` |
| `CExpressions.StepAt` | assembler/expressions.c:134-210 | one pass of the loop consumes at most one token, and only continues before the end of the stream |
| `CExpressions.ScanUnfold` | assembler/expressions.c:134-210 | the loop from a position is one body pass followed by the loop from the next position |
| `CExpressions.ScanBounds` | assembler/expressions.c:134-210 | the scan stops between its start and the end of the stream and changes only the symbol table |
| `CExpressions.EvaluateBounds` | assembler/expressions.c:119-226 | `evaluate_expression` stops between its start and the end of the stream and changes only the symbol table |
| `CExpressions.Evaluate` | assembler/expressions.c:119-226 | the two-stack evaluation method has exactly the effect of `EvaluateSpec` |
| `CExpressions.ScanStep` | assembler/expressions.c:134-209 | one pass of the loop for a token other than an identifier computes `StepAt` |
| `CExpressions.ScanIdentifier` | assembler/expressions.c:150-161 | one pass for an identifier, with its symbol lookup, computes `StepAt` |
| `CExpressions.ScanTokens` | assembler/expressions.c:134-210 | the main loop computes `Scan` from empty stacks |
| `ExprSemantics.TokensWidth` | assembler/expressions.c:119-226 | a parenthesised tree is written with exactly `Width` tokens |
| `ExprSemantics.ScanExpr` | assembler/expressions.c:134-210 | scanning a fully parenthesised tree, whatever is stacked below, pushes exactly its value and moves past it, or stops at undefined behaviour |
| `ExprSemantics.ScanBinary` | assembler/expressions.c:162-209 | the same for a binary node `( l f r )` |
| `ExprSemantics.ScanBinaryRight` | assembler/expressions.c:162-209 | the operator, right operand and `)` of a binary node, once its left value is stacked |
| `ExprSemantics.ScanUnary` | assembler/expressions.c:162-209 | the same for a unary node `( u e )` |
| `ExprSemantics.EvaluateNumber` | assembler/expressions.c:138-149 | a number followed by a separator or line end evaluates to itself and stops before the separator |
| `PseudoOps.EvaluateSymbol` | assembler/expressions.c:150-161 | a symbol that has a value, followed by a separator or line end, evaluates to that value, stops before the separator and leaves the state the symbol lookup leaves |
| `ExprSemantics.EvaluateTree` | assembler/expressions.c:119-226 | with the `)` check as intended, a fully parenthesised expression evaluates to the value of its tree (or fails exactly where the tree's evaluation is undefined) and consumes all its tokens |
| `ExprPrecedence.PopBinary` | assembler/expressions.c:106-114 | popping a binary operator replaces the two top values by its result |
| `ExprPrecedence.PopUnary` | assembler/expressions.c:106-114 | popping a unary operator replaces the top value by its result |
| `ExprPrecedence.PrecedenceRight` | assembler/expressions.c:188-202 | `a f b g c` with f of lower priority than g evaluates as `a f (b g c)` |
| `ExprPrecedence.PrecedenceLeft` | assembler/expressions.c:188-202 | `a f b g c` with f of higher or equal priority evaluates as `(a f b) g c`: left associativity |
| `ExprPrecedence.UnaryBeforeBinary` | assembler/expressions.c:188-202 | `u a f b` evaluates as `(u a) f b`: unary operators bind tighter than every binary one |
| `ExprPrecedence.UnaryNesting` | assembler/expressions.c:188-202 | `u1 u2 a` evaluates as `u1 (u2 a)`: unary operators nest to the right |
| `ExprPrecedence.SyntaxErrors` | assembler/expressions.c:138-220 | two values in a row, a `)` without `(`, an unclosed `(` and an empty expression are each rejected with their own error |
| `ExprPrecedence.AsWrittenSteps` | assembler/expressions.c:162-179 | as written, the scan of `(1)` reaches the assertion after the `)` reduction and aborts |
| `ExprPrecedence.ParenCheckAsWritten` | assembler/expressions.c:176 | as written `(1)` aborts on the assertion; with the check for `(` it evaluates to 1 |
| `CTokenizer.At` | assembler/tokenizer.c:93-102 | the token at a position is the stream's, and past its end there is only end of file |
| `CTokenizer.CommentEnd` | assembler/tokenizer.c:39-45 | a comment runs to, but not including, the next newline or the end of input |
| `CTokenizer.Skip` | assembler/tokenizer.c:38-51 | the next significant position is not a `#` and not whitespace other than a newline |
| `CTokenizer.IdentifierEnd` | assembler/tokenizer.c:66-76 | the identifier run is the maximal run of identifier characters |
| `CTokenizer.NextToken` | assembler/tokenizer.c:31-91 | `load_token` moves forward, and past the input unless it reports end of file |
| `CTokenizer.NextTokenIdentifier` | assembler/tokenizer.c:66-87 | an identifier starts with `.`, `_`, `?` or a letter, is the maximal run of identifier characters after the blanks with its exact length, and the character ending it is left unread |
| `CTokenizer.NextTokenKinds` | assembler/tokenizer.c:54-90 | end of file exactly when only blanks and comments remain; end of line exactly from `\n` or `;`; the only other tokens are `:`, `,`, identifiers and errors |
| `CTokenizer.TokenListEnds` | assembler/tokenizer.c:31-91 | the token stream ends with exactly one end of file and has no empty slot |
| `CTokenizer.SkipBlanks` | assembler/tokenizer.c:38-51 | the skipping loop computes `Skip` |
| `CTokenizer.ScanIdentifier` | assembler/tokenizer.c:66-76 | the identifier loop copies exactly the run of identifier characters |
| `CTokenizer.Tokenizer.constructor` | assembler/tokenizer.c:109-130 | an opened tokenizer has read nothing and has an empty lookahead slot |
| `CTokenizer.Tokenizer.LoadToken` | assembler/tokenizer.c:31-91 | the slot and position become those of `NextToken` |
| `CTokenizer.Tokenizer.Get` | assembler/tokenizer.c:93-102 | a pushed-back token is returned first without reading; otherwise the next token is read; the slot is empty afterwards |
| `CTokenizer.Tokenizer.Unget` | assembler/tokenizer.c:104-107 | with an empty slot, the token is stored and the next `Get` returns it |
| `CTokenizer.ReadAll` | assembler/tokenizer.c:93-102 | reading until the end of file yields exactly the token stream |
| `CTokenizer.SpacedTokens` | assembler/tokenizer.c:62-87 | space-separated identifiers are read back as those identifiers, in order |
| `CTokenizer.LineTokens` | assembler/tokenizer.c:62-87 | a line of space-separated identifiers tokenizes to them, an end of line and the end of file |
| `CTokenizer.CommentExample` | assembler/tokenizer.c:38-65 | `a # b\n;` gives an identifier, two ends of line and the end of file |
| `IhexWriter.Checksum` | assembler/ihex.c:42 | the checksum byte is `-sum & 0xff`: with it the bytes add up to a multiple of 256 |
| `IhexWriter.RecordChecksum` | assembler/ihex.c:22-51 | a record's bytes are its length, address high and low byte, type, data and checksum, and they add up to a multiple of 256 |
| `IhexWriter.HexDigit` | assembler/ihex.c:15 | `%02x` writes lower-case hexadecimal digits |
| `IhexWriter.RecordText` | assembler/ihex.c:22-51 | a record is written as a colon, two digits per byte (data plus five), and a newline |
| `IhexWriter.EofRecordText` | assembler/ihex_output.c:40 | the end-of-file record is written as `:00000001ff` |
| `IhexWriter.FlushKeeps` | assembler/ihex_output.c:5-21 | `flush` writes the buffered bytes as one data record of 1 to 16 bytes at the buffer's address and loses no byte |
| `IhexWriter.ByteOutputPlaces` | assembler/ihex_output.c:47-57 | `ihex_output_byte` places exactly one more byte, at its address, keeps the records already written and the buffer below its size |
| `IhexWriter.WriteAllPlaces` | assembler/ihex_output.c:47-57 | after any sequence of bytes the writer's records and buffer hold exactly those bytes at their addresses, in order |
| `IhexWriter.OutputRoundTrip` | assembler/ihex_output.c:5-57 | the closed file is good data records that place exactly the given bytes, in order, followed by the end-of-file record |
| `IhexWriter.FlushEven` | assembler/ihex_output.c:5-21 | with the assembler's word pairs, a flush keeps every record at an even address with an even length |
| `IhexWriter.PairEven` | assembler/ihex_output.c:47-57 | writing one word's two bytes keeps the records even |
| `IhexWriter.WriteAllEven` | assembler/assembler.c:526-538 | the bytes the assembler writes, a high byte at an even address and the low byte after it, only make even records |
| `IhexWriter.CollectRecords` | toolchain-rs/src/image.rs:89-122 | even data records followed by the end-of-file record are collected by the Rust loader into one segment each, in order |
| `IhexWriter.SegmentsPlacedRecords` | toolchain-rs/src/image.rs:89-122 | those segments place the records' bytes |
| `IhexWriter.WriterToCollect` | toolchain-rs/src/image.rs:89-122 | the C assembler's file is accepted by the Rust loader, and its segments place exactly the bytes the assembler wrote |
| `IhexWriter.HexOutput.constructor` | assembler/ihex_output.c:23-33 | an opened writer is at address 0 with an empty buffer and no records |
| `IhexWriter.HexOutput.Flush` | assembler/ihex_output.c:5-21 | the object's new state is `Flushed` of the old one |
| `IhexWriter.HexOutput.OutputByte` | assembler/ihex_output.c:47-57 | the object's new state is `ByteOutput` of the old one |
| `IhexWriter.HexOutput.Close` | assembler/ihex_output.c:35-45 | the object's new state is `Closed` of the old one: flushed, the end-of-file record written, and the file closed |
| `IhexReader.HexValue` | common/ihex.c:61-70 | a digit's value is below 16 |
| `IhexReader.HexValueDigits` | common/ihex.c:61-70 | exactly `0`-`9`, `a`-`f` and `A`-`F` are accepted as digits, in either reading |
| `IhexReader.HexDigitValue` | common/ihex.c:61-66 | corrected, each digit the writer prints reads as its value; as written, `a`-`f` read as 0 to 5 |
| `IhexReader.ByteAt` | common/ihex.c:53-74 | `read_byte` fails only on an unexpected character (end of file included) |
| `IhexReader.BytesAt` | common/ihex.c:114-123 | reading n bytes gives n bytes |
| `IhexReader.Colon` | common/ihex.c:77-87 | the skip loop stops at the first colon at or after the position, and reports end of file exactly when none is left |
| `IhexReader.Or` | common/ihex.c:112 | OR-ing into a zero record type gives the byte read |
| `IhexReader.ByteAtText` | common/ihex.c:53-74 | corrected, two digits the writer printed read back as their byte |
| `IhexReader.BytesAtText` | common/ihex.c:114-119 | corrected, text that spells some bytes reads back as those bytes |
| `IhexReader.RecordAtOk` | common/ihex.c:76-131 | when every byte reads and they add up to a multiple of 256, the record is the address, type (OR-ed into the caller's) and data read, and reading stops after the checksum |
| `IhexReader.RecordFieldsBadSum` | common/ihex.c:125-128 | a record whose bytes do not add up to a multiple of 256 is rejected as an invalid checksum |
| `IhexReader.ErrorPersists` | common/ihex.c:114-123 | once a byte fails to read, the record fails with that error |
| `IhexReader.ReadWriteRoundTrip` | common/ihex.c:76-131 | corrected, any record the writer prints, followed by anything, reads back as that record, and reading stops right after it |
| `IhexReader.WriterExampleText` | assembler/ihex.c:22-51 | the writer prints one byte 0x0a at address 0 as `:010000000af5` |
| `IhexReader.AsWrittenRejectsOwnOutput` | common/ihex.c:63-66 | as written, the reader rejects that record with an invalid checksum |
| `IhexReader.CorrectedReadsOwnOutput` | common/ihex.c:76-131 | corrected, it reads that record back |
| `IhexReader.ReadByte` | common/ihex.c:53-74 | the digit loop computes `ByteAt` and adds the byte to the running checksum |
| `IhexReader.ReadRecord` | common/ihex.c:76-131 | `ihex_read_record` computes `RecordAt` |
| `IhexReader.ReadAfterColon` | common/ihex.c:89-131 | the part after the colon computes `RecordAfterColon` |
| `IhexReader.FindColon` | common/ihex.c:77-87 | the skip loop computes `Colon` |
| `IhexReader.ReadData` | common/ihex.c:101-123 | the byte loop computes `BytesAt` and keeps the checksum the sum of the count and the bytes read |
| `Image.BigEndianWords` | toolchain-rs/src/image.rs:77-84 | an even run of bytes gives half as many words |
| `Image.BigEndianWordAt` | toolchain-rs/src/image.rs:77-84 | word j is byte 2j as high byte and byte 2j+1 as low byte |
| `Image.WordsToBytes` | toolchain-rs/src/image.rs:77-84 | the bytes of words, high byte first, are twice as many |
| `Image.BigEndianRoundTrip` | toolchain-rs/src/image.rs:77-84 | reading back the bytes of words gives the words |
| `Image.SegmentExamples` | toolchain-rs/src/image.rs:154-173 | six bytes 01..06 give the words 0x0102, 0x0304, 0x0506, and a one-byte segment at 123 ends at 124 |
| `Image.ToWordSegment` | toolchain-rs/src/image.rs:72-84 | an even segment in word units starts and ends at half its byte offsets |
| `Image.ChainedWords` | toolchain-rs/src/image.rs:45-52 | two even segments overlap in bytes exactly when they overlap in words |
| `Image.WordAtBeyond` | toolchain-rs/src/image.rs:45-59 | past the end of the last chained segment the image is zero |
| `Image.WordAtSegment` | toolchain-rs/src/image.rs:45-59 | every segment's words appear at its word offset |
| `Image.WordAtGap` | toolchain-rs/src/image.rs:53-57 | a word address inside no segment reads as zero |
| `Image.Layout` | toolchain-rs/src/image.rs:41-61 | the layout runs from its base to the end of the last segment |
| `Image.LayoutStep` | toolchain-rs/src/image.rs:45-59 | a segment that does not overlap the previous one extends the layout by the zero gap and its own words |
| `Image.FirstOverlap` | toolchain-rs/src/image.rs:45-52 | the overlap the loop stops at is the first one, and its presence means the segments are not chained |
| `Image.LayoutIsWordAt` | toolchain-rs/src/image.rs:39-61 | the layout holds at every word address the word of the segment covering it, or zero in a gap |
| `Image.FirstOverlapFromChained` | toolchain-rs/src/image.rs:45-52 | scanning from the front finds an overlap exactly when the segments are not chained |
| `Image.BuildImage` | toolchain-rs/src/image.rs:39-63 | the image is built exactly when the segments are chained; otherwise the error is `Overlapping` |
| `Image.BuildImageOk` | toolchain-rs/src/image.rs:39-63 | chained segments build their layout from the first segment's word offset |
| `Image.BuildImageLength` | toolchain-rs/src/image.rs:30-61 | the built image runs from the first segment's start to the last segment's end: the length the source asserts at line 61 |
| `Image.BuildImageWordAt` | toolchain-rs/src/image.rs:39-63 | the built image holds at every word address the word of the segment covering it, or zero in a gap |
| `Image.BuildImageOverlap` | toolchain-rs/src/image.rs:46-51 | overlapping segments report the first overlapping pair: the later segment's offset and the size of the overlap |
| `Image.ConvertSpec` | toolchain-rs/src/image.rs:16-64 | `Empty` exactly for no segments, `Offset` when the first does not start at byte 0, and an image exactly when the segments start at 0 and are chained |
| `Image.ConvertSpecLength` | toolchain-rs/src/image.rs:30-61 | the converted image covers bytes 0 up to the last segment's end |
| `Image.ConvertSpecWordAt` | toolchain-rs/src/image.rs:39-63 | the converted image holds at every word address the covering segment's word, or zero |
| `Image.ConvertSpecOverlap` | toolchain-rs/src/image.rs:292-322 | overlapping segments starting at 0 fail with the first overlap's offset and size, as the overlap test expects |
| `Image.AppendSegments` | toolchain-rs/src/image.rs:39-63 | the append loop computes `BuildImage` |
| `Image.ConvertU8Segments` | toolchain-rs/src/image.rs:16-64 | `convert_u8_segments` computes `ConvertSpec` |
| `Image.RomFromSegmentsAsWritten` | emulator-rs/src/memory.rs:55-94 | as written, `Rom::from_segments` panics exactly for overlapping segments, fails with `Empty` exactly for none, and otherwise covers up to the last segment's end |
| `Image.RomFromSegmentsPanicsOnOverlap` | emulator-rs/src/memory.rs:79 | a second segment starting inside the first makes the gap subtraction underflow |
| `Image.RomSpec` | emulator-rs/src/memory.rs:55-94 | corrected, a ROM is built exactly for chained segments, at half the first segment's byte offset |
| `Image.RomSpecAgrees` | emulator-rs/src/memory.rs:55-94 | the corrected ROM equals the source's wherever that does not panic, and reports `Overlapping` where it panics |
| `Image.RomSpecWordAt` | emulator-rs/src/memory.rs:55-94 | the corrected ROM holds the covering segment's word, or zero, at every word address from its offset |
| `Image.RomFromSegments` | emulator-rs/src/memory.rs:55-94 | the loop computes `RomSpec` |
| `Image.RomFromOneSegment` | emulator-rs/src/memory.rs:55-94 | one segment at byte offset 2n gives a ROM at word offset n holding its words |
| `Image.PrependAssoc` | toolchain-rs/src/image.rs:89-122 | collecting in two parts is collecting in one |
| `Image.CollectEven` | toolchain-rs/src/image.rs:92-108 | the segments collected are non-empty with even offsets and lengths |
| `Image.Insert` | toolchain-rs/src/image.rs:120 | inserting into a sorted list keeps it sorted and adds exactly the element |
| `Image.SortByOffset` | toolchain-rs/src/image.rs:120 | sorting gives a permutation sorted by offset |
| `Image.LoadIhexSegments` | toolchain-rs/src/image.rs:89-122 | `load_ihex_segments` fails exactly with the first error in file order; otherwise it returns the collected segments sorted by offset |
| `Image.CollectExtendedAddress` | toolchain-rs/src/image.rs:188-205 | a data record after an extended linear address record 0xffff lands at 0xffff0010 |
| `Image.CollectOddRecords` | toolchain-rs/src/image.rs:222-252 | an odd offset or an odd length is an `OddRecord` error with that offset and size |
| `CStack.GrowthGrows` | common/stack.h:9 | growth enlarges every non-zero size by at least one and at most doubles it, and leaves size 0 at 0 |
| `CStack.InflatedSize` | common/stack.h:11-16 | the inflated size covers the request and the old size, is the old size when that suffices, and is otherwise one growth step of a size below the request |
| `CStack.CorrectedInflatedSize` | common/stack.h:9-16 | with a zero capacity first grown to 1, the inflated size covers every request from every old size, keeps an old size that suffices, and equals the source's result wherever the source's loop ends |
| `CStack.InflateSize` | common/stack.h:11-16 | the loop computes `InflatedSize` |
| `CStack.GrowthStuckAtZero` | common/stack.h:9-16 | from size 0 every step of the growth sequence is 0 again, so the loop never ends for a non-zero request |
| `CStack.ResizedSlots` | common/stack.h:73-85 | the allocation after a resize has the inflated capacity |
| `CStack.ResizedSlotsKeep` | common/stack.h:73-85 | a resize keeps the items below both counts and the memory past the new count; corrected, every new item is zero as the macro's comment promises |
| `CStack.ResizeLeavesGarbage` | common/stack.h:77-81 | as written, resizing an empty stack of capacity 4 to two items leaves them uninitialised, since the fill length is computed from the already grown size; corrected, they are zero |
| `CStack.Stack.Items` | common/stack.h:18-23 | the items in use are `used` slots |
| `CStack.Stack.At` | common/stack.h:88-89 | `STACK_AT` is the item at the index |
| `CStack.Stack.AtR` | common/stack.h:92-93 | `STACK_AT_R` counts from the top |
| `CStack.Stack.constructor` | common/stack.h:28-34 | a new stack has the requested capacity, no items and uninitialised memory |
| `CStack.Stack.Deinit` | common/stack.h:38-43 | the allocation is released and capacity and count become 0 |
| `CStack.Stack.Push` | common/stack.h:56-60 | the value goes on top and the earlier items stay; a full stack first grows by half |
| `CStack.Stack.Reserve` | common/stack.h:64-69 | the capacity becomes the larger of the old one and the request, and the items stay |
| `CStack.Stack.Resize` | common/stack.h:73-85 | the count becomes the requested one; the capacity becomes its inflated size as written and `CorrectedInflatedSize` corrected; the memory becomes `ResizedSlots` |
| `CStack.AssemblerStack.Items` | assembler/stack.h:6-11 | the items in use are `used` slots |
| `CStack.AssemblerStack.constructor` | assembler/stack.h:15-21 | a new stack has the requested capacity, no items and uninitialised memory |
| `CStack.AssemblerStack.Deinit` | assembler/stack.h:24-29 | the allocation is released and capacity and count become 0 |
| `CStack.AssemblerStack.Push` | assembler/stack.h:42-46 | the value goes on top and the earlier items stay; a full stack first doubles |
| `CUtil.ParseDigit` | common/util.c:31-40 | `parse_digit` gives -1 exactly for a character that is no decimal or hexadecimal digit, a value 0..15 otherwise, and the decimal value of `0`-`9` |
| `CUtil.ParseDigitChar` | common/util.c:31-40 | every digit value, written in lower or upper case, reads back as itself |
| `CUtil.ParseDigitOnto` | common/util.c:31-40 | every digit character is the character of its value in one of the two cases |
| `CUtil.OverlapMeansCommonPoint` | common/util.c:42-44 | the intended overlap test holds exactly when some point lies in both half-open intervals; it is symmetric, and an empty interval overlaps nothing |
| `CUtil.OverlapAsWritten` | common/util.c:42-44 | `intervals_overlap` as written is symmetric and agrees with the intended test on non-empty intervals, but reports the empty `[5, 5)` as overlapping `[0, 10)` |
| `CUtil.StrDup` | common/util.c:23-29 | `strdup_with_msg` returns a fresh buffer holding the string and its terminating zero |
| `LocalizedFile.NewlineCountAppend` | common/localized_file.c:39-45 | reading one more character adds a newline to the count exactly when it is one |
| `LocalizedFile.LocationAfterCounts` | common/localized_file.c:24-49 | after reading a text, the line is one more than its newlines and the column the number of characters since the last newline |
| `LocalizedFile.LocalizedFile.constructor` | common/localized_file.c:4-17 | an opened file is at line 1, column 0, with nothing pushed back; opening fails exactly for a file that does not exist |
| `LocalizedFile.LocalizedFile.Getc` | common/localized_file.c:24-49 | a pushed-back character comes first without moving the location; otherwise the next character steps the location, the end of file leaves it, and a failed read returns false |
| `LocalizedFile.LocalizedFile.Ungetc` | common/localized_file.c:51-53 | the character replaces whatever was pushed back before |
| `LocalizedFile.UngetThenGet` | common/localized_file.c:24-53 | a positive pushed-back character is read next; pushing back 0 or `EOF` pushes back nothing |
| `DeviceMemory.PairWord` | emulator/devices/memory.c:58 | a word made of two bytes has the high byte on top and the low byte below; as written a low byte of 0x80 or more, sign-extended from `char`, turns the high half into 0xff |
| `DeviceMemory.WordUntouched` | emulator/devices/memory.c:39-64 | a word neither of whose bytes is copied keeps its value |
| `DeviceMemory.WordLowOnly` | emulator/devices/memory.c:43-53 | an odd start fills only the low half of its word, keeping the high half |
| `DeviceMemory.WordPair` | emulator/devices/memory.c:55-58 | a word both of whose bytes are copied is made of them |
| `DeviceMemory.WordHighOnly` | emulator/devices/memory.c:60-63 | an odd end fills only the high half of its last word, keeping the low half |
| `DeviceMemory.CopyBytesToWords` | emulator/devices/memory.c:39-64 | `copy_bytes_to_words` changes the destination to exactly `CopiedWords` |
| `DeviceMemory.CopyPlacesBytes` | emulator/devices/memory.c:37-64 | corrected, every byte copied reads back at its byte offset, big-endian, and every other byte is as it was |
| `DeviceMemory.AsWrittenAgreesOnSmallBytes` | emulator/devices/memory.c:39-64 | as written, a copy of bytes all below 0x80 is the corrected copy |
| `DeviceMemory.SignedCharCorruptsHighByte` | emulator/devices/memory.c:58 | as written, the bytes 12 80 copied to offset 0 make ff80 instead of 1280 |
| `DeviceMemory.InitialBuffer` | emulator/devices/memory.c:77-79 | the word buffer starts empty, with capacity 1024 |
| `DeviceMemory.RecordWordEnd` | emulator/devices/memory.c:98-101 | corrected, the count a record resizes the buffer to covers the record and never drops below the count already reached |
| `DeviceMemory.StoreRecord` | emulator/devices/memory.c:95-103 | storing a record that does not overrun leaves the buffer's count at `RecordWordEnd` |
| `DeviceMemory.StoreRecordCorrected` | emulator/devices/memory.c:95-103 | corrected, storing a record never writes past the allocation, leaves every word below the count initialised, makes each byte of the record read back at its address and keeps every other byte |
| `DeviceMemory.ResizedDefined` | common/stack.h:73-85 | corrected, a resize leaves every word below the new count initialised and keeps the old ones |
| `DeviceMemory.LoadCorrectedDefined` | emulator/devices/memory.c:66-117 | corrected, a loaded image never overruns its buffer and has no uninitialised word |
| `DeviceMemory.GapLeftUninitialised` | emulator/devices/memory.c:101 | as written, a record at byte 4 of a fresh buffer leaves words 0 and 1 uninitialised |
| `DeviceMemory.GapZeroedCorrected` | emulator/devices/memory.c:101 | corrected, those words are zero |
| `DeviceMemory.LaterRecordShrinksImage` | emulator/devices/memory.c:98-101 | as written, a record at byte 0x10 then one at byte 0 shrinks the count from 9 words to 1; corrected it stays 9 |
| `DeviceMemory.WrappedEndOverruns` | emulator/devices/memory.c:98-103 | as written, a one-byte record at address 0xffff computes its end in 16 bits as 0, is not given room, and the copy writes past the buffer; corrected the buffer grows |
| `DeviceMemory.RecordAtAdvances` | common/ihex.c:76-131 | a record read ends after the position it was looked for at, within the text, so the loading loop ends |
| `DeviceMemory.LoadIhex` | emulator/devices/memory.c:66-117 | `load_ihex` over the file's text computes `LoadFrom` from the initial buffer |
| `DeviceMemory.DevMemory.constructor` | emulator/devices/memory.c:119-137 | the device maps the given buffer, writable or not |
| `DeviceMemory.DevMemory.Read` | emulator/devices/memory.c:22-24 | a read returns the word at the offset |
| `DeviceMemory.DevMemory.Write` | emulator/devices/memory.c:26-35 | a writable memory stores the word at the offset and changes nothing else; a read-only one ignores the write |
| `DeviceMemory.WriteThenRead` | emulator/devices/memory.c:22-35 | a write then a read at the same offset returns the value written, or the old value when the memory is read-only |
| `Uart.ItemCountIsLength` | emulator/devices/uart.c:8-13 | `read_fifo_items` is the number of bytes in the ring, always fewer than its size, and 0 exactly when the two ends meet |
| `Uart.Next` | emulator/devices/uart.c:17-19 | the head moves to the next index around the ring |
| `Uart.PopRemovesOldest` | emulator/devices/uart.c:15-22 | advancing the head of a non-empty ring removes exactly its oldest byte |
| `Uart.PopEmptyWraps` | emulator/devices/uart.c:15-22 | advancing the head of an empty ring makes it report 7 bytes |
| `Uart.CharToWord` | emulator/devices/uart.c:16 | the `char` widened to a word: the byte itself, or, sign-extended as written, 0xff00 plus a byte of 0x80 or more |
| `Uart.DevUart.Items` | emulator/devices/uart.c:8-13 | the bytes waiting are fewer than the ring's size |
| `Uart.DevUart.constructor` | emulator/devices/uart.c:53-59 | a new UART has an empty ring and has written nothing |
| `Uart.DevUart.Read` | emulator/devices/uart.c:29-42 | offset 0 reads the number of bytes waiting, offset 1 and every unknown offset read 0, and offset 2 pops the oldest byte; on an empty ring, as written it returns the stale byte and the ring then reports 7 bytes, corrected it returns 0 and the ring stays empty |
| `Uart.DevUart.ReadByte` | emulator/devices/uart.c:15-22 | `read_byte` returns the byte at the head and moves the head on, removing the oldest byte from a non-empty ring |
| `Uart.DevUart.Write` | emulator/devices/uart.c:44-50 | a write to offset 2 outputs its low byte; other offsets are ignored |
| `Uart.ReadEmptyUart` | emulator/devices/uart.c:29-42 | reading offset 2 of a fresh UART then offset 0 gives, as written, a count of 7; corrected, the value 0 and a count of 0 |
| `GenInstructions.KindCode` | assembler/generate_instructions.py:81-94 | each argument type has its own non-zero table code, so none reads as the list end `INSTRUCTION_ARG_NONE` |
| `GenInstructions.TypeOf` | assembler/generate_instructions.py:56-57 | an argument's type is found exactly when the name is declared, and is a declared type of it |
| `GenInstructions.TypeOfListed` | assembler/generate_instructions.py:56-57 | with distinct names, each declared argument's type is found |
| `GenInstructions.PyIntDecimal` | assembler/generate_instructions.py:61 | `int` reads back every decimal numeral |
| `GenInstructions.ArgSize` | assembler/generate_instructions.py:58-61 | registers take 3 bits; other types take the number after their first letter, and a type without one is an error |
| `GenInstructions.ArgKindOf` | assembler/generate_instructions.py:81-94 | `gpr` and `cr` are register arguments, a type starting with `s` is signed, one starting with `u` unsigned, anything else has no kind |
| `GenInstructions.ZeroX` | assembler/generate_instructions.py:66 | `replace("x", "0")` turns every `x` into `0` and keeps every other character |
| `GenInstructions.AddPieceOk` | assembler/generate_instructions.py:54-68 | each encoding piece keeps the text made of bits, each argument recorded with its declared size over zero bits, and no two arguments sharing a bit |
| `GenInstructions.BuildOk` | assembler/generate_instructions.py:52-68 | every encoding text that is built keeps that invariant |
| `GenInstructions.BuildLocations` | assembler/generate_instructions.py:54-64 | an argument is located exactly when it is declared and its name is one of the pieces |
| `GenInstructions.TextFieldZero` | assembler/generate_instructions.py:63-75 | zero characters of a 16-bit text are a zero field of its value at the matching shift |
| `GenInstructions.EntryIsValid` | assembler/generate_instructions.py:52-106 | every entry generated has a 16-bit encoding, at most three arguments, one per declared argument with its declared type and size, each inside the word over zero bits, registers 3 bits wide, and no two arguments sharing a bit |
| `GenInstructions.ArgValid` | assembler/generate_instructions.py:96-102 | each argument's shift and size place it inside the word over zero bits of the base encoding |
| `GenInstructions.EntryErrors` | assembler/generate_instructions.py:54-79 | a bad piece, then a length other than 16, then more than three arguments are reported in that order |
| `GenInstructions.MissingArgument` | assembler/generate_instructions.py:96-99 | a declared argument missing from the encoding is reported, once the arguments before it are fine |
| `GenInstructions.GenerateEntry` | assembler/generate_instructions.py:51-106 | the script's two loops over one variant compute `Entry` |
| `GenInstructions.DescribeArgs` | assembler/generate_instructions.py:80-102 | the loop over the declared arguments computes `ArgDefs`: it stops at the first bad type or argument missing from the encoding, and otherwise gives each argument its kind, the shift `16 - position` and its size |
| `GenInstructions.ArgDefsFromStep` | assembler/generate_instructions.py:80-102 | each argument of the second loop either stops it with a bad type or a missing location, or adds its definition |
| `GenInstructions.BuildLayout` | assembler/generate_instructions.py:52-68 | the loop over the encoding pieces computes `Build` |
| `GenInstructions.BuildPrefixError` | assembler/generate_instructions.py:54-68 | the first failing piece decides the error |
| `GenInstructions.ReplaceAbsent` | assembler/generate_instructions.py:23 | `replace` of a text that does not occur changes nothing |
| `GenInstructions.ReplaceSelf` | assembler/generate_instructions.py:23 | replacing a text by itself changes nothing |
| `GenInstructions.Used` | assembler/generate_instructions.py:14 | the used substitutions are exactly those whose placeholder occurs in the mnemonic, in their order |
| `GenInstructions.ProductShape` | assembler/generate_instructions.py:19 | `itertools.product` has one tuple per combination, each picking one value from each list |
| `GenInstructions.SubstFieldAbsent` | assembler/generate_instructions.py:25-29 | a text without any chosen placeholder passes through `subst_function` unchanged |
| `GenInstructions.VariantsShape` | assembler/generate_instructions.py:12-31 | a mnemonic without placeholders is yielded once with the identity substitution; otherwise once per combination of the used substitutions' values |
| `GenInstructions.GenerateValid` | assembler/generate_instructions.py:51-109 | every entry of a generated table satisfies what the C assembler relies on |
| `WordFields.InsertField` | assembler/assembler.c:442-444 | OR-ing a value into a zero field of a word puts exactly that value in the field and keeps the bits below and above it |
| `WordFields.InsertElsewhere` | assembler/assembler.c:442-444 | it keeps every field that shares no bit with the one set |
| `WordFields.InsertBound` | assembler/assembler.c:442-444 | setting a zero field inside a 16-bit word gives a 16-bit word |
| `FieldUtil.Mask` | toolchain-rs/src/util.rs:10 | `u16::MAX >> (16 - bits)` is the low `bits` bits set |
| `FieldUtil.Field` | toolchain-rs/src/util.rs:5-12 | `field` gives a value below `2^bits` congruent to the input modulo `2^bits`: its low bits |
| `FieldUtil.FieldOfPadded` | toolchain-rs/src/util.rs:73-87 | a field value below arbitrary padding reads back exactly |
| `FieldUtil.FieldIgnoresHighBits` | toolchain-rs/src/util.rs:5-12 | only the low `bits` bits of the input matter |
| `FieldUtil.TopBit` | toolchain-rs/src/util.rs:23-26 | the top bit of a field is set exactly when the field is at least `2^(bits-1)` |
| `FieldUtil.SignExtendField` | toolchain-rs/src/util.rs:16-32 | `sign_extend_field` gives the two's-complement reading of the low bits: a value in range, congruent to the input, negative exactly when the top bit is set |
| `FieldUtil.TwosComplement` | toolchain-rs/src/util.rs:61-63 | the two's-complement pattern of a value in range is below `2^bits` and congruent to it |
| `FieldUtil.SignExtendOfPadded` | toolchain-rs/src/util.rs:49-66 | a signed value stored below arbitrary padding is recovered exactly |
| `FieldUtil.SignExtendIgnoresHighBits` | toolchain-rs/src/util.rs:16-32 | only the low `bits` bits of the input matter |
| `FieldUtil.SignExtendExamples` | toolchain-rs/src/util.rs:41-47 | `0b10` in 2 bits is -2, `0b01` is 1, `0xffa1` in 2 bits is 1, `0x7f` in 7 bits is -1 |
| `FieldUtil.FlipTopBit` | emulator-rs/src/util.rs:20 | XOR with the top bit flips whether the field is at least `2^(bits-1)` |
| `FieldUtil.SignExtendFieldU16` | emulator-rs/src/util.rs:14-21 | the emulator's `sign_extend_field` is the 16-bit pattern of the two's-complement reading |
| `FieldUtil.SignExtendFieldU16Examples` | emulator-rs/src/util.rs:29-34 | `0b10` gives 0xfffe, `0b01` gives 1, `0xffa1` gives 1 |
| `FieldUtil.SignExtendFieldU16OfPadded` | emulator-rs/src/util.rs:38-53 | a padded signed field comes back as the 16-bit pattern of the value |
| `FieldUtil.FieldMacro` | emulator-rs/src/util.rs:5-7 | `field!` keeps the low `T::BITS` bits, which always fit the type |
| `HandlerGen.FindDash` | emulator/generate_instruction_handler.py:35 | `find("-")` is -1 exactly when there is no dash, and otherwise the index of the first one |
| `HandlerGen.Prefixed` | emulator/generate_instruction_handler.py:40-45 | each rest is yielded twice, once after a `0` and once after a `1` |
| `HandlerGen.Concretize` | emulator/generate_instruction_handler.py:29-45 | a pattern without dashes is yielded as it is |
| `HandlerGen.PrefixedMember` | emulator/generate_instruction_handler.py:40-45 | a string is yielded exactly when it is the prefix, a binary digit and one of the rests |
| `HandlerGen.InstanceSplit` | emulator/generate_instruction_handler.py:35-45 | an instance of a pattern splits at its first dash into the fixed prefix, a binary digit and an instance of the rest |
| `HandlerGen.ConcretizeExactly` | emulator/generate_instruction_handler.py:29-45 | `concretize_encoding` yields exactly the strings that agree with the pattern away from the dashes and have a binary digit at each dash |
| `HandlerGen.ConcretizeCount` | emulator/generate_instruction_handler.py:29-45 | it yields `2^k` strings for a pattern with k dashes |
| `HandlerGen.InstanceMatches` | emulator/generate_instruction_handler.py:94 | the number `int(s, base=2)` of an instance matches the pattern's fixed bits |
| `HandlerGen.MatchesInstance` | emulator/generate_instruction_handler.py:94 | every number matching the pattern is the value of the instance spelling it |
| `HandlerGen.ConcretizedValues` | emulator/generate_instruction_handler.py:77-94 | the slots a pattern claims are exactly the numbers matching its fixed bits |
| `HandlerGen.ArgSize` | emulator/generate_instruction_handler.py:58-63 | registers take 3 bits; other types take the number after their first letter |
| `HandlerGen.Dashes` | emulator/generate_instruction_handler.py:65 | `"-" * n` is n dashes, or none for a negative n |
| `HandlerGen.PieceBits` | emulator/generate_instruction_handler.py:58-69 | a piece becomes pattern characters; a literal piece keeps its length, with `x` as a dash |
| `HandlerGen.EncodingString` | emulator/generate_instruction_handler.py:56-69 | the pieces together make a pattern of `0`, `1` and `-` |
| `HandlerGen.OpcodePattern` | emulator/generate_instruction_handler.py:71-77 | an accepted encoding gives a 7-character opcode pattern |
| `HandlerGen.HandlerEncodingsValues` | emulator/generate_instruction_handler.py:55-77 | `handler_encodings` fails exactly for a bad piece, a length other than 16 or a fixed bit past the opcode, and otherwise yields exactly the 7-bit opcodes matching the fixed opcode bits |
| `HandlerGen.Patterns` | emulator/generate_instruction_handler.py:92-94 | one opcode pattern per definition, in order |
| `HandlerGen.TableOf` | emulator/generate_instruction_handler.py:91-94 | the table has 128 slots |
| `HandlerGen.TableSlots` | emulator/generate_instruction_handler.py:91-94 | the table fails exactly when some definition fails; a filled slot names a definition matching it that no later definition matches, and an empty slot is matched by none |
| `HandlerGen.PatternsFail` | emulator/generate_instruction_handler.py:92-93 | the patterns fail exactly when some definition fails |
| `HandlerGen.FillOpcodeTable` | emulator/generate_instruction_handler.py:91-94 | the table loop computes `TableOf` |
| `HandlerGen.ClaimSlots` | emulator/generate_instruction_handler.py:93-94 | the inner loop writes the mnemonic into exactly the slots of the yielded opcodes and keeps every other slot |
| `HandlerGen.PatternsPrefixFail` | emulator/generate_instruction_handler.py:92-93 | the first failing definition decides the error |
| `OpcodeTable.SpreadMember` | toolchain-rs/build.rs:238-247 | a value is in the product extended by a bit exactly when its upper bits were and its low bit is allowed |
| `OpcodeTable.MatchesBound` | toolchain-rs/build.rs:238-247 | every number a pattern allows is narrower than the pattern |
| `OpcodeTable.ExpandMatches` | toolchain-rs/build.rs:238-247 | `expand_encoding` yields exactly the numbers whose bits agree with the pattern's `0`s and `1`s |
| `OpcodeTable.ExpandCount` | toolchain-rs/build.rs:238-247 | it yields `2^k` numbers for k wildcards, in increasing order, so none twice |
| `OpcodeTable.ExpandExample` | toolchain-rs/build.rs:238-247 | `1x0` expands to 4, 6 and `x1x` to 2, 3, 6, 7 |
| `OpcodeTable.Encodings` | toolchain-rs/build.rs:228 | the encodings of all definitions in order, or an error that some definition's encoding reports |
| `OpcodeTable.EncodingsFirstError` | toolchain-rs/build.rs:227-232 | the first failing definition decides the error, whatever follows it |
| `OpcodeTable.Owner` | toolchain-rs/build.rs:227-232 | a slot's owner is the last definition whose pattern matches it; a slot without owner is matched by none |
| `OpcodeTable.OpcodeTableSlots` | toolchain-rs/build.rs:221-235 | `make_opcode_table` fails exactly when some encoding fails; otherwise it has `2^opcode_bits` slots, each naming the last definition whose opcode bits match it, or empty when none does |
| `OpcodeTable.OwnerAppend` | toolchain-rs/build.rs:229-231 | one more definition takes the slots it matches and leaves the others' owners |
| `OpcodeTable.FillSlots` | toolchain-rs/build.rs:229-231 | the inner loop sets every matching slot to the new definition and keeps the rest |
| `OpcodeTable.MakeOpcodeTable` | emulator-rs/build.rs:57-69 | the loops of `make_opcode_table`, with the opcode width as a parameter, compute `OpcodeTableOf` |
| `OpcodeTable.RunsFlatten` | toolchain-rs/build.rs:119-126 | grouping the table into match arms loses nothing: the arms spell out the table again |
| `OpcodeTable.RunsHead` | toolchain-rs/build.rs:119-126 | the first arm starts at the first slot, and there are no arms only for an empty table |
| `OpcodeTable.RunsMaximal` | toolchain-rs/build.rs:119-126 | every arm covers at least one slot and neighbouring arms hold different instructions |
| `OpcodeTable.RunsTile` | toolchain-rs/build.rs:119-126 | the arms' opcode ranges tile the table in order without gaps |
| `OpcodeTable.RunsExample` | toolchain-rs/build.rs:119-126 | `[a, a, -, -, -, a]` groups into arms of 2, 3 and 1 slots |
| `InstructionSet.ParseArgType` | toolchain-rs/instruction_set/src/lib.rs:91-106 | `gpr` and `cr` are registers; otherwise the slice of the first byte panics on an empty text or a first character wider than one byte, and the text is an immediate exactly when it is `s` or `u` followed by a `usize`, signed for `s`; anything else is `BadArgumentType` |
| `InstructionSet.ArgTypeText` | toolchain-rs/instruction_set/src/lib.rs:91-106 | the text of a type is at least two characters long |
| `InstructionSet.ParseArgTypeText` | toolchain-rs/instruction_set/src/lib.rs:91-106 | every type is read back from its text |
| `InstructionSet.ParseArgTypeExamples` | toolchain-rs/instruction_set/src/lib.rs:91-106 | `x8`, `s` and `u8b` are refused, the empty text panics, and `u+8` reads as an unsigned 8-bit immediate |
| `InstructionSet.Bits` | toolchain-rs/instruction_set/src/lib.rs:117-123 | registers take three bits, an immediate its own width |
| `InstructionSet.Classify` | toolchain-rs/instruction_set/src/lib.rs:136-144 | a piece of only `0` and `1` (the empty one included) is a literal, a non-empty run of `x` is ignored bits of its length, and anything else names an argument |
| `InstructionSet.Xs` | toolchain-rs/instruction_set/src/lib.rs:55 | `count` pushes of `x` |
| `InstructionSet.PieceText` | toolchain-rs/instruction_set/src/lib.rs:53-65 | a literal is its own text, ignored bits and a declared argument are that many `x`s, and an undeclared argument is `UndefinedArgument` |
| `InstructionSet.Expand` | toolchain-rs/instruction_set/src/lib.rs:52-67 | expansion can only fail with an undefined argument |
| `InstructionSet.Encoding` | toolchain-rs/instruction_set/src/lib.rs:49-77 | an encoding is exactly `instruction_bits` long; otherwise it is `WrongEncodingLength` with the expanded length |
| `InstructionSet.ExpandSucceeds` | toolchain-rs/instruction_set/src/lib.rs:52-67 | expansion succeeds exactly when every argument piece is declared, and then has the pieces' width |
| `InstructionSet.EncodingSucceeds` | toolchain-rs/instruction_set/src/lib.rs:49-77 | `encoding` succeeds exactly when every argument is declared and the pieces take exactly `instruction_bits` bits |
| `InstructionSet.ExpandAlphabet` | toolchain-rs/instruction_set/src/lib.rs:52-67 | with binary literals, an expanded encoding is made of `0`, `1` and `x` |
| `InstructionSet.ExpandFirstError` | toolchain-rs/instruction_set/src/lib.rs:56-62 | the first undeclared argument is reported, whatever follows |
| `InstructionSet.EncodingLoop` | emulator-rs/instruction_set/src/lib.rs:30-58 | the loop of `encoding`, with the width as a parameter, computes `Encoding` |
| `InstructionSet.ToSeq` | toolchain-rs/instruction_set/src/lib.rs:167-173 | one value becomes a one-element list, a list stays itself |
| `DecimalText.DecString` | toolchain-rs/src/instruction.rs:56-60 | the decimal text of a number is non-empty, all digits, and has no leading zero unless it is `0` |
| `DecimalText.DecStringValue` | toolchain-rs/src/instruction.rs:56-60 | the digits of the decimal text spell the number back |
| `DecimalText.ParseU16` | toolchain-rs/src/instruction.rs:58 | a parsed `u16` is below 65536 and its text starts with a digit or `+` |
| `DecimalText.ParseU16DecString` | toolchain-rs/src/instruction.rs:58 | every `u16` reads back from its decimal text |
| `DecimalText.ParseU16RejectsNonDigit` | toolchain-rs/src/assembler/parser.rs:97 | any character other than a digit, or a `+` in first place, makes the parse fail |
| `DecimalText.ParseUsize` | toolchain-rs/instruction_set/src/lib.rs:101 | a parsed `usize` is below 2^64 and its text starts with a digit or `+` |
| `DecimalText.ParseUsizeDecString` | toolchain-rs/instruction_set/src/lib.rs:101 | every `usize` reads back from its decimal text |
| `FieldLayout.WidthAppend` | toolchain-rs/build.rs:293-302 | the width of pieces laid side by side is the sum of their widths |
| `FieldLayout.TextValueBound` | toolchain-rs/build.rs:358 | a literal of `n` bits is worth less than 2^n |
| `FieldLayout.TextValueAppend` | toolchain-rs/build.rs:358 | reading two bit texts one after the other is the first shifted left by the second's length, plus the second |
| `FieldLayout.TextValueXs` | toolchain-rs/build.rs:360 | ignored bits contribute nothing to the constant |
| `FieldLayout.PackBound` | toolchain-rs/build.rs:353-385 | with values that fit their fields, the packed word fits the encoding's width |
| `FieldLayout.PackAppend` | toolchain-rs/build.rs:353-385 | packing two runs of pieces is the first packed, shifted left by the second's width, plus the second packed |
| `FieldLayout.PackSplit` | toolchain-rs/build.rs:353-385 | the packed word splits at any piece the same way |
| `FieldLayout.PackFixedBits` | toolchain-rs/build.rs:353-385 | with no argument values the packed word is the expanded encoding text read in binary with `x` as 0 |
| `FieldLayout.EncoderStep` | toolchain-rs/build.rs:353-379 | one more piece lowers the offset by its width and adds its literal bits to the constant, or its argument as one more term at that offset |
| `FieldLayout.EncodedWordStep` | toolchain-rs/build.rs:353-385 | one more piece adds its value at the bits below it to the encoded word |
| `FieldLayout.EncodedWordPacks` | toolchain-rs/build.rs:353-385 | an encoder arm writes the pieces' layout aligned to the top of the 16-bit word |
| `FieldLayout.EncodedWordFull` | toolchain-rs/build.rs:353-385 | for a 16-bit encoding the encoder arm's word is exactly the packed layout |
| `FieldLayout.OutputArm` | toolchain-rs/build.rs:352-385 | the loop of `generate_instruction_output_arm` builds the constant and the argument terms the layout defines |
| `FieldLayout.ArmStep` | toolchain-rs/build.rs:354-379 | the encoder's constant and terms after `i + 1` pieces extend those after `i` by piece `i`'s part |
| `FieldLayout.ArgOffsetsAt` | toolchain-rs/build.rs:292-302 | an argument has an offset exactly when some piece names it, and the offset counts the bits up to and including such a piece |
| `FieldLayout.ArgOffsetsLoop` | toolchain-rs/build.rs:292-302 | the loop of `generate_instruction_match_arm` fills `arg_offsets` as the layout defines |
| `FieldLayout.MatchArmShiftPanics` | toolchain-rs/build.rs:317 | for a 16-bit encoding the decoder arm's `arg_offsets[arg_name]` panics exactly for a declared argument that no piece names |
| `FieldLayout.ArgSplit` | toolchain-rs/build.rs:317 | the decoder's shift for a named argument is the width of the pieces after it |
| `FieldLayout.FieldRoundTrip` | toolchain-rs/build.rs:277-385 | the decoder reads back what the encoder wrote: for a 16-bit encoding and values that fit, shifting right by the decoder's shift and keeping the field's bits gives the argument's value |
| `CoreInstruction.RegTryFrom` | toolchain-rs/toolchain_core/instruction.rs:23-32 | a register index converts exactly when it is below 16, and keeps its value |
| `CoreInstruction.RegFromStr` | toolchain-rs/toolchain_core/instruction.rs:59-67 | a register name that parses is `r` followed by at least one more character |
| `CoreInstruction.RegTextRoundTrip` | toolchain-rs/toolchain_core/instruction.rs:392-397 | every register reads back from its `Display` text |
| `CoreInstruction.RegFromStrRejectsExamples` | toolchain-rs/toolchain_core/instruction.rs:399-405 | `xxxx`, `rx`, `r99` and `s0` are not register names |
| `CoreInstruction.CrToU16` | toolchain-rs/toolchain_core/instruction.rs:83-98 | a control register's number is below 8 |
| `CoreInstruction.CrTryFrom` | toolchain-rs/toolchain_core/instruction.rs:387-390 | a number names a control register exactly when it is below 8, and that register has that number |
| `CoreInstruction.CrU16RoundTrip` | toolchain-rs/toolchain_core/instruction.rs:380-385 | every control register reads back from its number |
| `CoreInstruction.CrFromStr` | toolchain-rs/toolchain_core/instruction.rs:106-110 | a parsed control-register name is exactly the register's `Display` text |
| `CoreInstruction.CrNameRoundTrip` | toolchain-rs/toolchain_core/instruction.rs:362-367 | every control register reads back from its `Display` text |
| `CoreInstruction.CrFromStrRejectsLowercase` | toolchain-rs/toolchain_core/instruction.rs:374-378 | a name starting with a lower-case letter is not a control register |
| `CoreInstruction.ToNibbles` | toolchain-rs/toolchain_core/instruction.rs:311-318 | the four nibbles put back together give the word |
| `CoreInstruction.NibblesRoundTrip` | toolchain-rs/toolchain_core/instruction.rs:311-318 | splitting a word built from four nibbles gives those nibbles |
| `CoreInstruction.I8AsU8` | toolchain-rs/toolchain_core/instruction.rs:286-289 | `v as u8` is `v` modulo 256 |
| `CoreInstruction.U8AsI8` | toolchain-rs/toolchain_core/instruction.rs:209 | `x as i8` is the `i8` whose bits are `x` |
| `CoreInstruction.I4Bits` | toolchain-rs/toolchain_core/instruction.rs:291-293 | the low four bits of an `i4` are the value modulo 16 |
| `CoreInstruction.U4BitsToI4` | toolchain-rs/toolchain_core/instruction.rs:320-324 | sign extension of a nibble subtracts 16 from 8 and above, and its low four bits are the nibble |
| `CoreInstruction.I8RoundTrip` | toolchain-rs/toolchain_core/instruction.rs:286-289 | an `i8` survives the trip through its byte, also when the byte is split into nibbles |
| `CoreInstruction.DecodeGroupFAsWritten` | toolchain-rs/toolchain_core/instruction.rs:255-274 | the `0b1111` group panics exactly for `ldcr`/`stcr` with a register nibble of 8 or more, and is not an instruction exactly for high opcodes 4 to 14 |
| `CoreInstruction.DecodeFieldsAsWritten` | toolchain-rs/toolchain_core/instruction.rs:202-279 | `decode` as written panics exactly on a `ldcr`/`stcr` word with a register nibble of 8 or more, and returns `None` exactly for opcode 8 and the unused `0b1111` group |
| `CoreInstruction.DecodeFields` | toolchain-rs/toolchain_core/instruction.rs:202-279 | the corrected decoder returns `None` for the unused opcodes and for the out-of-range control register, and otherwise agrees with `decode` as written |
| `CoreInstruction.DecodeDomain` | toolchain-rs/toolchain_core/instruction.rs:202-279 | on whole words: which words are not instructions, which make `decode` as written panic, and that the two decoders agree elsewhere |
| `CoreInstruction.DecodeOfNibbles` | toolchain-rs/toolchain_core/instruction.rs:203 | decoding a word is decoding its four nibbles |
| `CoreInstruction.EncodedNibbles` | toolchain-rs/toolchain_core/instruction.rs:159-199 | every instruction's encoding is four nibbles from which the decoder reads the same instruction back |
| `CoreInstruction.DecodeEncode` | toolchain-rs/toolchain_core/instruction.rs:354-360 | decoding the encoding of any instruction gives it back |
| `CoreInstruction.DecodeAsWrittenEncode` | toolchain-rs/toolchain_core/instruction.rs:354-360 | `decode` as written never panics on an encoded instruction and gives it back |
| `CoreInstruction.EncodeDecodeFields` | toolchain-rs/toolchain_core/instruction.rs:159-279 | re-encoding a decoded instruction gives back the four nibbles, unless the instruction ignores some of them |
| `CoreInstruction.EncodeDecode` | toolchain-rs/toolchain_core/instruction.rs:159-279 | a decodable word is the encoding of what it decodes to, unless the instruction ignores some bits |
| `CoreInstruction.CrTryFromInverse` | toolchain-rs/toolchain_core/instruction.rs:387-390 | a number below 8 survives the trip through its control register |
| `CoreInstruction.DecodeZeroIsAdd` | toolchain-rs/toolchain_core/instruction.rs:332 | `0x0000` decodes to `add r0, r0, r0` |
| `CoreInstruction.DecodeAllOnesIsBreak` | toolchain-rs/toolchain_core/instruction.rs:333 | `0xffff` decodes to `break` |
| `CoreInstruction.Decode009fIsInvalid` | toolchain-rs/toolchain_core/instruction.rs:338-341 | `0x009f` is not an instruction |
| `CoreInstruction.DecodePanicsOnControlRegister8` | toolchain-rs/toolchain_core/instruction.rs:257-260 | `0x080f` makes `decode` as written panic, while the corrected decoder says it is not an instruction |
| `Disassembler.Step` | toolchain-rs/disassembler/disassembler.rs:46-59 | a word after an `Ldi` is reported as its immediate; otherwise it is decoded, with the next word an immediate exactly after an `Ldi`, or reported invalid |
| `Disassembler.Disassembler.constructor` | toolchain-rs/disassembler/disassembler.rs:25-31 | a new iterator is at offset 0 and not expecting an immediate |
| `Disassembler.Disassembler.Next` | toolchain-rs/disassembler/disassembler.rs:37-62 | `None` exactly when no word is left; otherwise one word is consumed and reported at the current offset, and the items still to come shrink by that item |
| `Disassembler.DisassembleAll` | toolchain-rs/disassembler/disassembler.rs:24-62 | draining a fresh iterator yields the listing of the whole slice |
| `Disassembler.ListingShape` | toolchain-rs/disassembler/disassembler.rs:37-62 | one item per word, at consecutive addresses |
| `Disassembler.ListingContents` | toolchain-rs/disassembler/disassembler.rs:46-59 | every word is reported for what it is: decoded, invalid because it does not decode, or an immediate that carries the word and follows an `Ldi` |
| `Disassembler.ListingLdiImmediate` | toolchain-rs/disassembler/disassembler.rs:46-55 | the word after a decoded `Ldi` is reported as its immediate |
| `CpuTypes.CpuStatusToWord` | toolchain-rs/src/cpu_types.rs:26-30 | bit 0 is interrupts, bit 1 kernel mode, bit 2 the MMU, and nothing outside the mask is set |
| `CpuTypes.CpuStatusTryFrom` | toolchain-rs/src/cpu_types.rs:32-48 | a word converts exactly when it has no bit outside the mask; otherwise the error carries the word |
| `CpuTypes.CpuStatusRoundTrip` | toolchain-rs/src/cpu_types.rs:203-206 | every status reads back from its word |
| `CpuTypes.CpuStatusWordRoundTrip` | toolchain-rs/src/cpu_types.rs:213-220 | every word inside the mask reads back from its status |
| `CpuTypes.VirtualToWord` | toolchain-rs/src/cpu_types.rs:57-61 | the page number sits above the 10-bit offset |
| `CpuTypes.VirtualFromWord` | toolchain-rs/src/cpu_types.rs:63-70 | splitting a word into page and offset and joining them gives the word back |
| `CpuTypes.VirtualRoundTrip` | toolchain-rs/src/cpu_types.rs:238-242 | every virtual address reads back from its word |
| `CpuTypes.VirtualFromWordExample` | toolchain-rs/src/cpu_types.rs:231-236 | `0xab33` is page `0b101010`, offset `0b1100110011` |
| `CpuTypes.PhysicalToU24` | toolchain-rs/src/cpu_types.rs:97-101 | the frame number sits above the 10-bit offset |
| `CpuTypes.PhysicalFromU24` | toolchain-rs/src/cpu_types.rs:103-110 | splitting a 24-bit value into frame and offset and joining them gives the value back |
| `CpuTypes.PhysicalRoundTrip` | toolchain-rs/src/cpu_types.rs:255-259 | every physical address reads back from its 24-bit value |
| `CpuTypes.PhysicalFromU24Example` | toolchain-rs/src/cpu_types.rs:248-254 | `0xaaab33` is frame `0b10101010101010`, offset `0b1100110011` |
| `CpuTypes.PhysicalTryFromU32` | emulator-rs/src/cpu_types.rs:78-86 | a 32-bit value converts exactly when it is below 2^24, and then to the address with that value |
| `CpuTypes.SegmentToU16` | toolchain-rs/src/cpu_types.rs:81-84 | data is 0 and program is 1 |
| `CpuTypes.PageTableIndexToWord` | toolchain-rs/src/cpu_types.rs:130-136 | the context id, the segment bit and the page number take bits 7-12, 6 and 0-5, so the index is below `1 << 13` |
| `CpuTypes.PageTableIndexTryFrom` | toolchain-rs/src/cpu_types.rs:144-154 | a word is an index exactly when it is below `1 << 13`, and then the index has that word |
| `CpuTypes.PageTableIndexRoundTrip` | toolchain-rs/src/cpu_types.rs:273-277 | every index reads back from its word |
| `CpuTypes.PageTableIndexExample` | toolchain-rs/src/cpu_types.rs:265-272 | `0x1c73` is context `0b111000`, the program segment, page `0b110011` |
| `CpuTypes.PageTableRecordToWord` | toolchain-rs/src/cpu_types.rs:163-168 | readable is bit 15, writable bit 14 and the frame the low 14 bits |
| `CpuTypes.PageTableRecordFromWord` | toolchain-rs/src/cpu_types.rs:170-180 | every word is the word of the record read from it |
| `CpuTypes.PageTableRecordRoundTrip` | toolchain-rs/src/cpu_types.rs:303-307 | every record reads back from its word |
| `CpuTypes.PageTableRecordExample` | toolchain-rs/src/cpu_types.rs:295-302 | `0xb333` is readable, not writable, frame `0b11001100110011` |
| `Cpu.AfterReset` | toolchain-rs/src/cpu.rs:88-97 | reset clears the program counter, the status flags, the microcode step and the current instruction, and keeps the registers, the page table and the prefetched instruction |
| `Cpu.ResetIdempotent` | toolchain-rs/src/cpu.rs:88-97 | resetting twice is resetting once |
| `Cpu.CpuState.State` | toolchain-rs/src/cpu.rs:9-28 | the state's register file and page table are the arrays' contents |
| `Cpu.CpuState.constructor` | toolchain-rs/src/cpu.rs:33-56 | a new CPU is the zero-filled state after reset |
| `Cpu.CpuState.Reset` | toolchain-rs/src/cpu.rs:88-97 | the new state is the old one after reset |
| `Cpu.CpuState.GetGpr` | toolchain-rs/src/cpu.rs:111-118 | `r0` reads as zero and `rN` reads slot `N - 1` |
| `Cpu.CpuState.SetGpr` | toolchain-rs/src/cpu.rs:120-125 | a write to `r0` is dropped; another register takes the value and every other register keeps its own |
| `Cpu.CpuState.Page` | toolchain-rs/src/cpu.rs:192 | the entry an index selects is the table slot at the index's word |
| `Cpu.CpuState.VirtualToPhysical` | toolchain-rs/src/cpu.rs:180-212 | translation of the current state is the translation function |
| `Cpu.CpuState.WriteMemoryMapping` | toolchain-rs/src/cpu.rs:214-216 | exactly the selected page-table entry changes, to the new record |
| `Cpu.CpuState.EndInstruction` | toolchain-rs/src/cpu.rs:218-221 | the prefetched instruction becomes current, the step restarts, and nothing else changes |
| `Cpu.PageIn` | toolchain-rs/src/cpu.rs:186-192 | the entry an index selects in a state |
| `Cpu.TranslateSpec` | toolchain-rs/src/cpu.rs:180-212 | translation keeps the page offset, fails only with the MMU on, and then exactly when the entry forbids the access |
| `Cpu.TranslateWithoutMmuIgnoresPage` | toolchain-rs/src/cpu.rs:202-210 | with the MMU off, data goes to frame 0 and program to frame `1 << 13` whatever the page number |
| `Cpu.BootFetchAddress` | toolchain-rs/src/cpu.rs:88-97 | after reset the first fetch from program address 0 reaches physical word `0x800000` |
| `Cpu.TranslateAfterMapping` | toolchain-rs/src/cpu.rs:180-216 | with the MMU on, after installing an entry, an access it grants lands in its frame |
| `EmulatorCpu.Containing` | emulator-rs/src/cpu.rs:64-65 | `overlap(address)` yields exactly the mappings whose range contains the address, in order |
| `EmulatorCpu.RoutePhysical` | emulator-rs/src/cpu.rs:63-81 | a physical access goes to the single mapping containing the address, at `address - start`; no mapping is a `NonMappedPhysicalMemory` error with the address and the program counter, and two or more panic |
| `EmulatorCpu.PanicsOnlyOnOverlap` | emulator-rs/src/cpu.rs:67 | a physical access panics only when two mappings overlap |
| `EmulatorCpu.CpuState.GetGpr` | emulator-rs/src/cpu.rs:25-31 | `r0` reads as zero and `rN` reads slot `N - 1` |
| `EmulatorCpu.CpuState.SetGpr` | emulator-rs/src/cpu.rs:33-37 | a write to `r0` is dropped; another register takes the value and every other register keeps its own |
| `EmulatorCpu.CpuState.MapMemory` | emulator-rs/src/cpu.rs:83-103 | translation fails exactly when the selected page-table entry forbids the access, and otherwise puts the entry's frame above the page offset |
| `EmulatorCpu.CpuState.WriteMemoryMapping` | emulator-rs/src/cpu.rs:105-107 | exactly the selected page-table entry changes, to the new record |
| `EmulatorCpu.CpuState.RouteAccess` | emulator-rs/src/cpu.rs:63-81 | a physical access of the CPU is routed through its mappings with its program counter |
| `Memory.Ram.constructor` | toolchain-rs/src/memory.rs:15-19 | a new RAM holds `size` zero words |
| `Memory.Ram.MaxAddress` | toolchain-rs/src/memory.rs:23-25 | the last valid address is one below the length |
| `Memory.Ram.Size` | emulator-rs/src/memory.rs:26-28 | the standalone emulator's RAM reports its number of words |
| `Memory.Ram.Read` | toolchain-rs/src/memory.rs:26-28 | a read within the buffer returns the stored word |
| `Memory.Ram.Write` | toolchain-rs/src/memory.rs:30-33 | a write stores the word at the address, changes nothing else, and a read there gives it back |
| `Memory.Rom.constructor` | toolchain-rs/src/memory.rs:42-46 | a ROM holds the image it was loaded from |
| `Memory.Rom.MaxAddress` | toolchain-rs/src/memory.rs:50-52 | the last valid address is one below the length |
| `Memory.Rom.Read` | toolchain-rs/src/memory.rs:54-56 | a read within the buffer returns the stored word |
| `Memory.Rom.Write` | toolchain-rs/src/memory.rs:58-60 | a write to ROM is refused |
| `Registers.GprTryFrom` | toolchain-rs/src/instruction.rs:27-32 | a number is a register exactly when it is below 8, and that register has that number |
| `Registers.GprToU16` | toolchain-rs/src/instruction.rs:34-38 | a register's number is below 8 |
| `Registers.GprU16RoundTrip` | toolchain-rs/src/instruction.rs:181-186 | every register reads back from its number |
| `Registers.GprText` | toolchain-rs/src/instruction.rs:21-25 | a register's text is `r` followed by its one-digit number |
| `Registers.GprFromStr` | toolchain-rs/src/instruction.rs:53-62 | a parsed register name is `r` followed by a `u16` text of the register's number |
| `Registers.GprTextRoundTrip` | toolchain-rs/src/instruction.rs:164-169 | every register reads back from its text |
| `Registers.GprFromStrRejectsExamples` | toolchain-rs/src/instruction.rs:171-178 | `xxxx`, `rx`, `r99` and `s0` are not register names |
| `Registers.GprFromStrRejectsLarge` | toolchain-rs/src/instruction.rs:56-60 | a number of 8 or more after `r` is rejected whatever its spelling |
| `Registers.CrToU16` | toolchain-rs/src/instruction.rs:77-92 | a control register's number is below 8 |
| `Registers.CrTryFrom` | toolchain-rs/src/instruction.rs:159-162 | a number names a control register exactly when it is below 8, and that register has that number |
| `Registers.CrU16RoundTrip` | toolchain-rs/src/instruction.rs:152-157 | every control register reads back from its number |
| `Registers.CrName` | toolchain-rs/src/instruction.rs:94-98 | a control register's text is its variant name, starting with a capital |
| `Registers.CrFromStr` | toolchain-rs/src/instruction.rs:134-139 | a parsed control-register name is exactly the register's text |
| `Registers.CrNameRoundTrip` | toolchain-rs/src/instruction.rs:134-139 | every control register reads back from its text |
| `Registers.CrFromStrRejects` | toolchain-rs/src/instruction.rs:141-144 | a text that is no variant name is rejected |
| `Registers.CrFromStrRejectsLowercase` | toolchain-rs/src/instruction.rs:146-150 | a name starting with a lower-case letter is rejected |
| `System.Window` | emulator-rs/src/system.rs:61 | `address >> 20` is the window the address lies in |
| `System.WindowOffset` | emulator-rs/src/system.rs:62 | `address & 0x0fffff` is the address within its window |
| `System.SystemDevices.constructor` | emulator-rs/src/system.rs:17-20 | the devices are the given RAM and ROM |
| `System.SystemDevices.ReadAsWritten` | emulator-rs/src/system.rs:57-68 | as written, RAM answers up to its last address, and above it only window 0 reaches the ROM |
| `System.SystemDevices.Read` | emulator-rs/src/system.rs:45-68 | with the memory map's numbering, RAM answers up to its last address, and above it the window at `0x800000` reaches the ROM |
| `System.SystemDevices.Write` | emulator-rs/src/system.rs:70-82 | only RAM accepts writes; above it the answer is `None` and nothing changes |
| `System.RomUnreachableAsWritten` | emulator-rs/src/system.rs:57-68 | with the 1M-word RAM, no read above the RAM succeeds as written |
| `System.RomReadable` | emulator-rs/src/system.rs:45-68 | with the memory map's numbering every ROM word is read at `0x800000 + k` |
| `System.ReadsAgreeOnRam` | emulator-rs/src/system.rs:58-59 | both readings agree on the RAM |
| `System.SystemState.constructor` | emulator-rs/src/system.rs:23-31 | a new system has a reset CPU, 1M words of zeroed RAM and the loaded image in ROM |
| `System.SystemState.Reset` | emulator-rs/src/system.rs:33-35 | reset only resets the CPU |
| `System.BootFetch` | emulator-rs/src/system.rs:45-68 | after reset the first fetch goes to `0x800000`, which as written reads nothing and with the memory map's numbering reads the first ROM word |
| `Microcode.ToolchainPhase` | toolchain-rs/build.rs:483-526 | a microinstruction has a phase, at most 7, exactly when the toolchain's table names it; otherwise the generator panics |
| `Microcode.EmulatorPriority` | emulator-rs/build.rs:126-164 | the emulator's generator gives priority 9999 exactly to a name its table does not know |
| `Microcode.PhaseTablesAgree` | toolchain-rs/build.rs:483-526 | the two generators agree on every name the emulator's knows, and the toolchain's knows exactly `program_segment`, `end_instruction` and `break` more |
| `Microcode.InPhase` | toolchain-rs/build.rs:457 | the microinstructions of one phase are a subsequence of the step |
| `Microcode.InPhaseAppend` | toolchain-rs/build.rs:457 | the microinstructions of a phase in two runs are those of the first followed by those of the second |
| `Microcode.InsertMultiset` | toolchain-rs/build.rs:457 | one insertion of the stable sort adds exactly the inserted element |
| `Microcode.InsertSorted` | toolchain-rs/build.rs:457 | inserting into a list ordered by phase keeps it ordered |
| `Microcode.InsertInPhase` | toolchain-rs/build.rs:457 | an inserted element goes behind every element of its phase |
| `Microcode.SortByPhaseSpec` | toolchain-rs/build.rs:457 | the sort orders by phase, keeps every microinstruction as often as it occurs, and keeps the written order within each phase |
| `Microcode.Substitute` | toolchain-rs/build.rs:466-480 | a name without `$` passes through unchanged, and a `$` name succeeds exactly when its substitution exists |
| `Microcode.SubstituteAllPlain` | toolchain-rs/build.rs:453-455 | a step without `$` names is left as it is |
| `Microcode.ToolchainTranslate` | toolchain-rs/build.rs:456 | a translated step has one microinstruction per name, each with its name's phase from the table |
| `Microcode.SubstituteAllSpec` | toolchain-rs/build.rs:453-455 | substituting a step succeeds exactly when every `$` name in it has a substitution |
| `Microcode.ToolchainTranslateSpec` | toolchain-rs/build.rs:456 | a step translates exactly when every name in it is in the table |
| `Microcode.ToolchainStepSpec` | toolchain-rs/build.rs:440-463 | a step is generated exactly when every substitution exists and every resulting name is known, and it is then the translated list ordered by phase, each phase in written order |
| `Microcode.SortByPhaseExample` | toolchain-rs/build.rs:457 | a load step written consumer first is emitted producers first |
| `Microcode.ToolchainStepExample` | toolchain-rs/build.rs:440-463 | the same load step through the whole toolchain generator |
| `Microcode.EmulatorStepSpec` | emulator-rs/build.rs:102-121 | the emulator's step never fails, keeps one microinstruction per name, orders by priority, and keeps the written order within each priority |
| `Files.ExtendTo` | toolchain-rs/src/assembler/files.rs:117-133 | an empty side gives way to the other; otherwise the range runs from the first's start to the second's end, in the same file |
| `Files.ExtendToLaws` | toolchain-rs/src/assembler/files.rs:117-133 | the empty location is neutral on either side, and joining two ordered ranges covers both |
| `Files.ExtendToAssociative` | toolchain-rs/src/assembler/files.rs:117-133 | joining ranges that follow each other is associative |
| `Files.First` | toolchain-rs/src/assembler/files.rs:155-165 | `None` exactly on an empty slice; otherwise the first token with its span as a location in the slice's file |
| `Files.Rest` | toolchain-rs/src/assembler/files.rs:167-172 | exactly the first token is dropped and the file kept |
| `Files.EmptyLocation` | toolchain-rs/src/assembler/files.rs:174-180 | `0..0` in the slice's file |
| `Files.FirstRest` | toolchain-rs/src/assembler/files.rs:155-172 | first and rest take a slice apart without losing anything |
| `Files.StartsUpTo` | toolchain-rs/src/assembler/files.rs:37-42 | the count of line starts at or before a byte is at most the table's length |
| `Files.StartsUpToPrefix` | toolchain-rs/src/assembler/files.rs:37-42 | with increasing starts, those at or before a byte are a prefix of the table |
| `Files.LineIndex` | toolchain-rs/src/assembler/files.rs:37-42 | the line found for a byte starts at or before it, and the next line starts after it |
| `Files.LineIndexUnique` | toolchain-rs/src/assembler/files.rs:37-42 | that line is the only one with this property |
| `Files.LineRange` | toolchain-rs/src/assembler/files.rs:44-55 | a line runs from its start to the next line's start, or to the end of the source for the last line; a line past the table is `LineTooLarge` with the largest valid line |
| `Files.LineOfByte` | toolchain-rs/src/assembler/files.rs:37-55 | the line found for a byte of the source covers that byte |
| `Lexer.ToDigit` | toolchain-rs/src/assembler/lexer.rs:81 | decimal digits and letters of either case are digits below the base, and `_` is none |
| `Lexer.FoldDigits` | toolchain-rs/src/assembler/lexer.rs:78-86 | a folded value is at least the accumulator and at most `i32::MAX` |
| `Lexer.ParseNum` | toolchain-rs/src/assembler/lexer.rs:77-86 | a parsed number lies in `0..=i32::MAX` |
| `Lexer.Digits` | toolchain-rs/src/assembler/lexer.rs:79-81 | the digits of a literal, underscores dropped, are below the base |
| `Lexer.FoldDigitsValue` | toolchain-rs/src/assembler/lexer.rs:78-86 | the fold computes the positional value, or `None` exactly when that value exceeds `i32::MAX` |
| `Lexer.ParseNumValue` | toolchain-rs/src/assembler/lexer.rs:77-86 | `parse_num` on a literal of the base is its value when that fits `i32`, and `None` otherwise |
| `Lexer.FoldPanicsOnlyOnBadCharacter` | toolchain-rs/src/assembler/lexer.rs:81 | a panic can only come from a character that is neither `_` nor a digit of the base |
| `Lexer.ToDigits` | toolchain-rs/src/assembler/lexer.rs:239-243 | a number has at least one digit, each below the base |
| `Lexer.ValueOfToDigits` | toolchain-rs/src/assembler/lexer.rs:239-243 | the digits of a number spell it back |
| `Lexer.LeadingZeros` | toolchain-rs/src/assembler/lexer.rs:239-243 | leading zeros do not change the value |
| `Lexer.DigitCharValue` | toolchain-rs/src/assembler/lexer.rs:81 | a digit written in either case reads back as itself |
| `Lexer.DigitsOfRender` | toolchain-rs/src/assembler/lexer.rs:239-243 | a literal written with any case mix and any `_` padding has exactly the written digits |
| `Lexer.NumLiteralRoundTrip` | toolchain-rs/src/assembler/lexer.rs:238-243 | any value in `0..=i32::MAX`, written in the base with leading zeros, any cases and any `_` padding, parses back to itself |
| `Lexer.StripBasePrefix` | toolchain-rs/src/assembler/lexer.rs:92-123 | the base prefix is stripped exactly when the slice starts with `0` and the letter in either case |
| `Lexer.ParsePrefixed` | toolchain-rs/src/assembler/lexer.rs:92-123 | a slice without its prefix panics; otherwise the rest is parsed in the base |
| `Lexer.HexExample` | toolchain-rs/src/assembler/lexer.rs:234-236 | `0x1_23` is 0x123 |
| `Lexer.HexValue` | toolchain-rs/src/assembler/lexer.rs:203 | a hex digit is worth less than 16 |
| `Lexer.PlainRun` | toolchain-rs/src/assembler/lexer.rs:127-128 | the run of characters a `Str` sub-token matches: all plain, and stopped by a character that is not |
| `Lexer.HexRun` | toolchain-rs/src/assembler/lexer.rs:142-146 | the run of hex digits at the start: all digits, stopped by one that is not |
| `Lexer.UnicodeEscape` | toolchain-rs/src/assembler/lexer.rs:142-147 | a `\u` escape covers at least one character and no more than the input |
| `Lexer.NextStringToken` | toolchain-rs/src/assembler/lexer.rs:125-150 | a sub-token covers at least one character, and a `Str` sub-token is exactly its run of plain characters |
| `Lexer.TokenText` | toolchain-rs/src/assembler/lexer.rs:152-168 | only the error sub-token fails; `Str` stands for its text, a Unicode escape for its character and each simple escape for one character |
| `Lexer.Join` | toolchain-rs/src/assembler/lexer.rs:184-187 | two decoded parts join exactly when both succeed, into their concatenation |
| `Lexer.DecodeStep` | toolchain-rs/src/assembler/lexer.rs:177-189 | decoding is the first sub-token's text followed by the decoding of the rest |
| `Lexer.ParseString` | toolchain-rs/src/assembler/lexer.rs:170-190 | `parse_string` on the characters between the quotes gives their decoding, borrowed or owned |
| `Lexer.DecodeOwned` | toolchain-rs/src/assembler/lexer.rs:183-188 | the owned loop builds the decoding sub-token by sub-token |
| `Lexer.AppendNext` | toolchain-rs/src/assembler/lexer.rs:185-187 | one sub-token's text appended keeps the decoding still to come, or the whole literal fails |
| `Lexer.DecodePlain` | toolchain-rs/src/assembler/lexer.rs:179-180 | a literal of plain characters decodes to itself |
| `Lexer.ToHex` | toolchain-rs/src/assembler/lexer.rs:324 | `{:x}` writes at least one hex digit that read back as the number |
| `Lexer.ToHexLength` | toolchain-rs/src/assembler/lexer.rs:324 | a number below 16^n takes at most n hex digits |
| `Lexer.HexRunStops` | toolchain-rs/src/assembler/lexer.rs:142-146 | a run of hex digits ends where a non-digit follows |
| `Lexer.UnicodeEscapeRoundTrip` | toolchain-rs/src/assembler/lexer.rs:322-327 | every character written as `\u{hex}` decodes back to itself |
| `Lexer.DecodeError` | toolchain-rs/src/assembler/lexer.rs:166 | an escape that is not understood fails the whole literal |
| `Lexer.InvalidEscape` | toolchain-rs/src/assembler/lexer.rs:283-286 | `\q` fails |
| `Lexer.InvalidUnicodeValue` | toolchain-rs/src/assembler/lexer.rs:312-315 | `\u{0x110000}` fails |
| `Lexer.InvalidUnicodeSyntaxDigit` | toolchain-rs/src/assembler/lexer.rs:288-291 | `\u{aX}` fails |
| `Lexer.InvalidUnicodeSyntaxUnclosed` | toolchain-rs/src/assembler/lexer.rs:293-296 | `\u{20` fails |
| `Lexer.InvalidUnicodeSyntaxNoBrace` | toolchain-rs/src/assembler/lexer.rs:298-301 | `\u20` fails |
| `Lexer.SimpleEscape` | toolchain-rs/src/assembler/lexer.rs:275-281 | each simple escape stands for its character, whatever follows |
| `Lexer.EscapeToken` | toolchain-rs/src/assembler/lexer.rs:130-141 | a backslash and a simple escape letter form a two-character sub-token |
| `ExprParser.Precedence` | toolchain-rs/src/assembler/expr_parser.rs:110-122 | binary operators have C-like levels from `\|` at 0 to `* / %` at 6, and every other token has none |
| `ExprParser.FromBool` | toolchain-rs/src/assembler/expr_parser.rs:131-133 | true is 1 and false is 0 |
| `ExprParser.EvalBinary` | toolchain-rs/src/assembler/expr_parser.rs:124-177 | a result is located over both operands; a negative shift amount is `NegativeShiftAmmount` at the right operand, and every other failure is `ValueOutOfRange` over both |
| `ExprParser.EvalArithmetic` | toolchain-rs/src/assembler/expr_parser.rs:136-140 | `+`, `-` and `*` succeed exactly when the exact result fits `i32`, and give it |
| `ExprParser.EvalDivision` | toolchain-rs/src/assembler/expr_parser.rs:137-138 | `/` and `%` round toward zero and fail exactly on a zero divisor and on `i32::MIN / -1` |
| `ExprParser.EvalShift` | toolchain-rs/src/assembler/expr_parser.rs:141-156 | a negative amount and an amount of 32 or more are errors; `<<` wraps and `>>` is arithmetic |
| `ExprParser.EvalComparison` | toolchain-rs/src/assembler/expr_parser.rs:157-162 | comparisons never fail and give 1 exactly when the relation holds |
| `ExprParser.EvalLogical` | toolchain-rs/src/assembler/expr_parser.rs:163-164 | `&&` and `\|\|` treat non-zero as true and give 0 or 1 |
| `ExprParser.Joined` | toolchain-rs/src/assembler/expr_parser.rs:101 | a location extended over further tokens keeps its start and file |
| `ExprParser.OneToken` | toolchain-rs/src/assembler/expr_parser.rs:38 | the next token must be the expected one and is consumed with its location; the end of input is `UnexpectedEof`, another token `UnexpectedToken` at it |
| `ExprParser.Expression` | toolchain-rs/src/assembler/expr_parser.rs:14-20 | an expression consumes at least one token, is located over all it consumed, and stops before a token that is not a binary operator |
| `ExprParser.Value` | toolchain-rs/src/assembler/expr_parser.rs:24-70 | a value consumes at least one token and is located over all it consumed |
| `ExprParser.Parenthesised` | toolchain-rs/src/assembler/expr_parser.rs:36-40 | a parenthesised expression runs from the `(` to the `)` and consumes at least three tokens |
| `ExprParser.UnaryOperand` | toolchain-rs/src/assembler/expr_parser.rs:42-61 | a unary operator's operand is located from the operator to the end of the value |
| `ExprParser.Main` | toolchain-rs/src/assembler/expr_parser.rs:72-105 | the loop stops before a token that is not an operator of at least the minimum precedence, consumes nothing exactly when one is next, and locates its result from the left operand over all it consumed |
| `ExprParser.Climb` | toolchain-rs/src/assembler/expr_parser.rs:94-99 | the inner loop stops before an operator that binds no tighter, and leaves the operand as it is when one is next |
| `ExprParser.MainLoop` | toolchain-rs/src/assembler/expr_parser.rs:72-105 | `main` as written, with its two loops, computes `Main` |
| `ExprParser.ClimbLoop` | toolchain-rs/src/assembler/expr_parser.rs:94-99 | the inner loop as written computes `Climb` |
| `ExprParser.OperandJoins` | toolchain-rs/src/assembler/expr_parser.rs:92-101 | joining a left operand to a climbed right operand covers everything from the left operand on |
| `ExprParser.JoinedTwice` | toolchain-rs/src/assembler/expr_parser.rs:101 | joining in two steps is joining once over everything |
| `ExprParser.EvalBinaryValue` | toolchain-rs/src/assembler/expr_parser.rs:124-177 | the evaluation succeeds exactly when the operator's value exists, and gives it |
| `ExprParser.TighterSecond` | toolchain-rs/src/assembler/expr_parser.rs:72-105 | in `a op1 b op2 c` with a tighter `op2`, `b op2 c` is evaluated first and all five tokens are consumed |
| `ExprParser.RightOperandClimbs` | toolchain-rs/src/assembler/expr_parser.rs:94-99 | the climb from `b` takes a tighter `op2 c` and stops at the end |
| `ExprParser.LooserSecond` | toolchain-rs/src/assembler/expr_parser.rs:72-105 | in `a op1 b op2 c` where `op2` binds no tighter, `a op1 b` is evaluated first, so equal precedence groups to the left |
| `ExprParser.ExampleSimplePriority` | toolchain-rs/src/assembler/expr_parser.rs:242 | `1+2*3` is 7 |
| `ExprParser.ExampleSimplePriority2` | toolchain-rs/src/assembler/expr_parser.rs:243 | `3*2+1` is 7 |
| `ExprParser.ExampleLeftAssociativity` | toolchain-rs/src/assembler/expr_parser.rs:246 | `5*2/3` is 3 |
| `ExprParser.ExampleSubtract` | toolchain-rs/src/assembler/expr_parser.rs:279 | `1 - 9` is -8, located over all three tokens |
| `ExprParser.ExampleShiftRight` | toolchain-rs/src/assembler/expr_parser.rs:281 | `0b110010 >> 3` is `0b110` |
| `ExprParser.ExampleJunkAfter` | toolchain-rs/src/assembler/expr_parser.rs:244 | `1+1 2+2` is 2, and parsing stops at the second number |
| `ExprParser.ExampleDivideByZero` | toolchain-rs/src/assembler/expr_parser.rs:264 | `1/0` is out of range over the whole expression |
| `ExprParser.ExampleNegativeShift` | toolchain-rs/src/assembler/expr_parser.rs:266 | `1 << -2` is a negative shift amount located at `-2` |
| `ExprParser.OneOperator` | toolchain-rs/src/assembler/expr_parser.rs:303-318 | one binary operator between two numbers is evaluated over the three tokens |
| `ExprParser.ExampleNegationOverflow` | toolchain-rs/src/assembler/expr_parser.rs:265 | `-(-2_147_483_647 - 1)` fails |
| `ExprParser.ValueParenthesised` | toolchain-rs/src/assembler/expr_parser.rs:36-40 | a `(` starts a parenthesised expression |
| `ExprParser.ValueNegated` | toolchain-rs/src/assembler/expr_parser.rs:46-53 | `-` negates its operand, failing over the whole value only for `i32::MIN` |
| `ExprParser.ExampleAllUnary` | toolchain-rs/src/assembler/expr_parser.rs:209 | `+-~!0` is 2 and stops before a following `+` |
| `ExprParser.ExampleNotSymbol` | toolchain-rs/src/assembler/expr_parser.rs:205 | `!foo` is 0 when `foo` is 13 |
| `ExprParser.ExampleValueErrors` | toolchain-rs/src/assembler/expr_parser.rs:226-232 | an empty input, the undefined `bar`, `(1` and `()` fail with their errors |
| `ParseState.Define` | toolchain-rs/src/assembler/state.rs:38-84 | a name with `:` is refused; in the first pass an existing name is a redefinition and a new one is added; in the second pass a missing name or a different symbol is refused and the table is unchanged |
| `ParseState.SecondPassAgrees` | toolchain-rs/src/assembler/state.rs:51-81 | a symbol defined in the first pass is accepted unchanged in the second, and anything else under its name is refused |
| `ParseState.SecondPassKeepsScope` | toolchain-rs/src/assembler/state.rs:64-81 | the second pass never changes a table |
| `ParseState.State.constructor` | toolchain-rs/src/assembler/state.rs:105-124 | a new state is in the first pass with one empty root scope and a `.text` section at address 0 |
| `ParseState.State.StartSecondPass` | toolchain-rs/src/assembler/state.rs:33-35 | only the pass flag changes |
| `ParseState.State.DefineSymbol` | toolchain-rs/src/assembler/state.rs:38-84 | the active scope's table becomes the one `Define` gives, with the current section recorded only when sectioned; on an error nothing changes |
| `AssemblerState.Define` | toolchain-rs/src/assembler/mod.rs:78-104 | a name holding `:` is refused; in the first pass a new name is added and a name already in the active scope is `SymbolRedefinition` at the new definition pointing to the old one; in the second pass the table is unchanged and succeeds exactly when the name is bound to the identical symbol, otherwise `SymbolChangedValue` |
| `AssemblerState.SymbolValue` | toolchain-rs/src/assembler/mod.rs:169-182 | a location symbol's value is its section's start address plus its offset, within `0..2*0xffff` so the `i32` sum never overflows; a free symbol's value is its own |
| `AssemblerState.Pass` | toolchain-rs/src/assembler/mod.rs:47-49 | a pass over a file's requests that raises no error has grown the section by one word per emitted word |
| `AssemblerState.PassAppendsWords` | toolchain-rs/src/assembler/mod.rs:124-127 | a pass without error leaves the section data as before followed by exactly the emitted words, in order |
| `AssemblerState.FirstPassBinds` | toolchain-rs/src/assembler/mod.rs:84-93 | a successful first pass keeps every binding it started with and binds every defined name to the symbol defined for it |
| `AssemblerState.SecondPassChecks` | toolchain-rs/src/assembler/mod.rs:94-100 | the second pass succeeds and leaves the scope untouched whenever every name it defines is already bound to the identical symbol, appending only the emitted words |
| `AssemblerState.PassConcat` | toolchain-rs/src/assembler/mod.rs:47-49 | running the requests of two files in a row is running the first and then, only if it succeeded, the second from where the first stopped |
| `AssemblerState.Assembled` | toolchain-rs/src/assembler/mod.rs:46-58 | an error in the first pass is the result of `assemble`, and the second pass is not run |
| `AssemblerState.TwoPasses` | toolchain-rs/src/assembler/mod.rs:46-58 | after a successful first pass the second one always succeeds, leaves the symbols as the first pass bound them, and the section holds the emitted words twice since both passes emit |
| `AssemblerState.NoSeparatorAt` | toolchain-rs/src/assembler/mod.rs:79-83 | no name defined in a successful first pass contains the path separator `:` |
| `AssemblerState.RedefinitionStops` | toolchain-rs/src/assembler/mod.rs:84-89 | defining one name twice stops the first pass with `SymbolRedefinition` at the second definition pointing to the first |
| `AssemblerState.State.constructor` | toolchain-rs/src/assembler/mod.rs:129-149 | a new state is in the first pass, with only the empty root scope active and one `.text` section at address 0 as the current section, with pc 0 |
| `AssemblerState.State.StartSecondPass` | toolchain-rs/src/assembler/mod.rs:60-62 | only the pass flag changes, to the second pass |
| `AssemblerState.State.DefineSymbol` | toolchain-rs/src/assembler/mod.rs:78-104 | the innermost active scope becomes what `Define` gives, nothing changes on an error, and the error is returned |
| `AssemblerState.State.EmitWord` | toolchain-rs/src/assembler/mod.rs:124-127 | the word is appended to the current section's data and nothing else changes |
| `AssemblerState.State.RunFile` | toolchain-rs/src/assembler/mod.rs:48 | one file's requests leave the active scope and section data as `Pass` gives and return its error |
| `AssemblerState.State.RunFiles` | toolchain-rs/src/assembler/mod.rs:47-49 | the files of one pass, in order, act as `Pass` over their concatenated requests, stopping at the first error |
| `AssemblerState.State.Assemble` | toolchain-rs/src/assembler/mod.rs:46-58 | starting in the first pass, the scope, the section data and the error are those `Assembled` gives |
| `MacroCollect.EntryText` | toolchain-rs/assembler/assembler.rs:98-105 | a named entry shows as its name, an anonymous one as `<anonymous N>` |
| `MacroCollect.Text` | toolchain-rs/assembler/assembler.rs:127-141 | an empty qualified name shows as nothing and a one-entry name as its entry |
| `MacroCollect.TextJoin` | toolchain-rs/assembler/assembler.rs:134-137 | the text of two non-empty names joined is their texts with one `.` between them |
| `MacroCollect.TextExample` | toolchain-rs/assembler/assembler.rs:98-141 | the name of macro `m` in scope `outer` of the first file shows as `<anonymous 0>.outer.m` |
| `MacroCollect.ScopeEntry` | toolchain-rs/assembler/assembler.rs:172-177 | a labelled scope adds its label as a named entry and an unlabelled one an anonymous entry numbered by its index among its siblings |
| `MacroCollect.CollectBelow` | toolchain-rs/assembler/assembler.rs:165-196 | the walk of a scope never adds, removes or changes a key that is not below that scope |
| `MacroCollect.CollectKeeps` | toolchain-rs/assembler/assembler.rs:181-192 | a key of the scope plus a name that no later item of this level defines keeps its entry, since nested scopes only write longer keys |
| `MacroCollect.LastDefinitionWins` | toolchain-rs/assembler/assembler.rs:181-192 | a macro definition with no later definition of the same name at its level is what the table holds under the scope plus its name, with its span, parameters and body |
| `MacroCollect.CollectFiles` | toolchain-rs/assembler/assembler.rs:78-89 | no files leave the table as it was |
| `MacroCollect.FilesSeparate` | toolchain-rs/assembler/assembler.rs:81-86 | a key rooted at no parsed file's own anonymous root keeps its entry, so files never write each other's macros and files whose parse failed add nothing |
| `MacroCollect.QualifiedName.constructor` | toolchain-rs/assembler/assembler.rs:111-113 | a new name holds only the anonymous entry with the given number |
| `MacroCollect.QualifiedName.PushName` | toolchain-rs/assembler/assembler.rs:114-116 | a named entry is appended |
| `MacroCollect.QualifiedName.PushAnonymous` | toolchain-rs/assembler/assembler.rs:118-120 | an anonymous entry is appended |
| `MacroCollect.QualifiedName.Pop` | toolchain-rs/assembler/assembler.rs:122-124 | the last entry is removed, and an empty name stays empty |
| `MacroCollect.Collector.constructor` | toolchain-rs/assembler/assembler.rs:152-156 | a new table is empty |
| `MacroCollect.Collector.CollectRecursive` | toolchain-rs/assembler/assembler.rs:165-196 | the table becomes what `Collect` gives for the scope path, and the scope path is as it was on entry |
| `MacroCollect.Collector.CollectMacros` | toolchain-rs/assembler/assembler.rs:78-89 | the table becomes what `CollectFiles` gives |
| `Tokens.SliceRest` | toolchain-rs/src/assembler/files.rs:155-172 | stepping past one token with `rest` reaches the next position's slice, and `first` there gives the token with its location in the file |
| `LegacyParser.AnyToken` | toolchain-rs/src/assembler/parser.rs:128-143 | the next token is consumed exactly when it is one of the expected ones; the end of input is "Unexpected EOF" and any other token "Unexpected token" |
| `LegacyParser.OneToken` | toolchain-rs/src/assembler/parser.rs:145-147 | succeeds exactly when the next token is the expected one, and steps past it |
| `LegacyParser.Ident` | toolchain-rs/src/assembler/parser.rs:121-126 | succeeds exactly on an identifier, giving its name and stepping past it; anything else is "Unexpected token" |
| `LegacyParser.Gpr` | toolchain-rs/src/assembler/parser.rs:93-100 | succeeds exactly on an identifier that names a general purpose register, giving that register; any other identifier is "Bad format" |
| `LegacyParser.GprAcceptsDisplayed` | toolchain-rs/src/assembler/parser.rs:93-100 | every register's own displayed name is parsed back to that register |
| `LegacyParser.Cr` | toolchain-rs/src/assembler/parser.rs:102-107 | succeeds exactly on an identifier that names a control register; any other identifier is "Unexpected control register name" |
| `LegacyParser.ScopeStep` | toolchain-rs/src/assembler/parser.rs:44-61 | each turn's action is determined by the next tokens exactly: end of input at top level, `}` in a nested scope, an identifier followed by `:` a label, a `.`-identifier a pseudo-instruction, another identifier an instruction, `{` an anonymous scope, an end of line or `;` `PeekAgain` (peeked and not consumed), an error token "Error parsing" |
| `LegacyParser.Precedence` | toolchain-rs/src/assembler/parser.rs:238-250 | binary operators have a level of at most 6 and other tokens none |
| `LegacyParser.PrecedenceReversed` | toolchain-rs/src/assembler/parser.rs:238-250 | the same tokens are operators as in the newer parser, each at level six minus its level there, so the order is reversed |
| `LegacyParser.EvalBinary` | toolchain-rs/src/assembler/parser.rs:252-290 | succeeds exactly when the newer parser's checked operation does and with the same value; a negative shift amount is "Negative shift amount" and every other failure "Value out of range" |
| `LegacyParser.Expression` | toolchain-rs/src/assembler/parser.rs:156-162 | a parsed expression consumes at least one token and stops before any binary operator |
| `LegacyParser.Value` | toolchain-rs/src/assembler/parser.rs:166-192 | a parsed value consumes at least one token |
| `LegacyParser.Main` | toolchain-rs/src/assembler/parser.rs:194-234 | the loop stops only before a token that is not an operator of at least the minimum level, consumes nothing exactly when it starts there, and then returns the left operand unchanged |
| `LegacyParser.Climb` | toolchain-rs/src/assembler/parser.rs:211-225 | the inner loop stops only before a token that is not an operator tighter than the current one, and returns the right operand unchanged when it starts there |
| `LegacyParser.MainLoop` | toolchain-rs/src/assembler/parser.rs:194-234 | the two nested loops with the recursive call give exactly what `Main` gives |
| `LegacyParser.ExampleUnary` | toolchain-rs/src/assembler/parser.rs:317-320 | `!42` is 0, `!0` is 1 and `~1` is -2, each leaving the following `+` |
| `LegacyParser.ExampleDoubleMinus` | toolchain-rs/src/assembler/parser.rs:322 | `--19` is 19, leaving the following `+` |
| `LegacyParser.ExampleAllUnary` | toolchain-rs/src/assembler/parser.rs:323 | `+-~!0` is 2 |
| `LegacyParser.ExampleValueErrors` | toolchain-rs/src/assembler/parser.rs:339-343 | an empty input, a lone `+`, a `;` and an undefined identifier are errors |
| `LegacyParser.ExampleParenErrors` | toolchain-rs/src/assembler/parser.rs:344-345 | `(1` is "Unexpected EOF" and `()` is an error |
| `LegacyParser.ExampleReversedPrecedence` | toolchain-rs/src/assembler/parser.rs:238-250 | `1 + 2 * 3` evaluates to 9, grouping as `(1 + 2) * 3` |
| `LegacyParser.ExampleNegationPanics` | toolchain-rs/src/assembler/parser.rs:182 | `-(-2147483647 - 1)` negates `i32::MIN` unchecked, which overflows |
| `Generators.Upper` | toolchain-rs/build.rs:203 | an ASCII lower-case letter becomes its upper-case letter and any other character is kept |
| `Generators.CamelCaseLoop` | toolchain-rs/build.rs:195-209 | the loop over the characters with the boundary flag gives `CamelCase` of the mnemonic |
| `Generators.Words` | toolchain-rs/build.rs:195-209 | splitting at underscores gives at least one word |
| `Generators.LastWordEmpty` | toolchain-rs/build.rs:197-201 | the boundary flag is set exactly when the current last word is still empty |
| `Generators.CamelCaseWords` | toolchain-rs/build.rs:195-209 | the variant name is the mnemonic's underscore-separated words, each with its first letter upper-cased, run together |
| `Generators.CamelCaseShape` | toolchain-rs/build.rs:195-209 | the variant name has one character per non-underscore character of the mnemonic, each the same or its upper case, and no underscore |
| `Generators.CamelCaseExamples` | toolchain-rs/build.rs:195-209 | `ld_cr` becomes `LdCr`, `add` becomes `Add`, and `_x__y_` becomes `XY` |
| `Generators.ArgTypeToRust` | toolchain-rs/build.rs:211-219 | an immediate becomes `i` or `u` by its signedness followed by its decimal bit count, and every type name has at least two characters |
| `Generators.ArgTypeToRustInjective` | toolchain-rs/build.rs:211-219 | different argument types always get different Rust type names |
| `Generators.CeilLog2Bounds` | toolchain-rs/build.rs:557 | two to the computed exponent is at least the number, and for numbers from 2 on the next lower power is below it |
| `Generators.NextPowerOfTwoLeast` | toolchain-rs/build.rs:557 | the next power of two is at least the number and at most every power of two that is at least the number |
| `Generators.IntermediateBitsLeast` | toolchain-rs/build.rs:557 | the intermediate width is eight times a power of two, holds the immediate's bits, and is the narrowest such width |
| `Generators.IntermediateBitsExamples` | toolchain-rs/build.rs:557 | 0, 4 and 8 bits parse through 8, 9 and 16 through 16, 17 and 25 through 32 |
| `FieldAllocation.FieldBitsExactly` | new_instruction_set.py:195-203 | a mask is yielded exactly when it is an `n`-bit run starting at some `i` with `i + n < 16` and lying wholly inside `mask`; each yielded mask has `n` bits set, namely bits `i` to `i + n - 1` |
| `FieldAllocation.FieldArgs` | new_instruction_set.py:218-223 | the arguments whose capability is `opcode` are skipped, so at most as many fields remain as arguments |
| `FieldAllocation.FitSound` | new_instruction_set.py:227-240 | every placement `fit_intervals` yields is the accumulator followed by the fields in argument order, each starting at or after the previous one's end, inside the argument bits plus the wiggle room |
| `FieldAllocation.FitComplete` | new_instruction_set.py:227-240 | every ordered, non-overlapping placement of the fields inside the argument bits plus the wiggle room is among those yielded |
| `FieldAllocation.LayoutInside` | new_instruction_set.py:225 | the fields of a placement lie between its start and end, and together they take at most that room |
| `FieldAllocation.EncodingsBelowOpcode` | new_instruction_set.py:206-243 | the encodings of an instruction are exactly the ordered, non-overlapping placements of its non-opcode arguments in the bits below its opcode |
| `FieldAllocation.UpsertSpec` | new_instruction_set.py:315 | or-ing capabilities into a field keeps the masks distinct, adds the mask, and changes that mask's capabilities alone, to the union |
| `FieldAllocation.GatherSpec` | new_instruction_set.py:313-315 | gathering placed arguments keeps masks distinct, adds exactly the masks they use, and a field wants a capability bit exactly when it did already or some argument placed in it wants it |
| `FieldAllocation.CostSplit` | new_instruction_set.py:311-326 | part 2 applied to part 1's fields gives the summed capability bits and the field count of the whole allocation, so splitting the allocation does not change its cost |
| `FieldAllocation.CostMeaning` | new_instruction_set.py:311-326 | the fields of an allocation are exactly the distinct masks used, each wanting exactly the capability bits some argument placed in it wants, and the second part of the cost counts them |
| `OpcodeHuffman.GreaterIsSwappedLess` | new_instruction_set.py:91-105 | `__gt__` holds exactly when `__lt__` holds with the operands swapped |
| `OpcodeHuffman.LessIsStrictOrder` | new_instruction_set.py:91-97 | on items with non-empty id ranges `__lt__` is irreflexive, asymmetric and transitive |
| `OpcodeHuffman.Xs` | new_instruction_set.py:138 | `"x" * n` has length `n` and only `x` characters |
| `OpcodeHuffman.OpcodeBits` | new_instruction_set.py:127-132 | the bits of arguments extending the opcode are at most the bits of all arguments |
| `OpcodeHuffman.MergeCodes` | new_instruction_set.py:107-120 | a merge holds both sides' instructions, the right side's codes behind `1` and the left side's behind `0`, uses more bits than either side, and its id range covers both |
| `OpcodeHuffman.LeafGood` | new_instruction_set.py:126-139 | a new leaf's only code is one `x` per opcode argument bit, which fits the bits it claims |
| `OpcodeHuffman.MergeShaped` | new_instruction_set.py:107-120 | merging keeps every code a path of merge bits followed by its instruction's `x`s, within the claimed opcode bits |
| `OpcodeHuffman.MergeSeparated` | new_instruction_set.py:110-113 | merging two items with no shared instruction keeps every two codes distinguishable at a bit that is not an argument bit |
| `OpcodeHuffman.MergeGood` | new_instruction_set.py:107-120 | merging two good items without a shared instruction gives a good item |
| `OpcodeHuffman.DisjointFromKeys` | new_instruction_set.py:152-159 | no item holds one of a set of instructions exactly when the items' union is disjoint from it |
| `OpcodeHuffman.PartitionPush` | new_instruction_set.py:159 | pushing a good item that shares no instruction with the heap keeps the heap a partition of good items |
| `OpcodeHuffman.MinIndex` | new_instruction_set.py:149 | the found index holds an item that no item of the heap is less than |
| `OpcodeHuffman.PopMin` | new_instruction_set.py:149-150 | the popped item is in the heap with nothing less than it, the rest is one shorter and still a partition, and the instructions are split between the two |
| `OpcodeHuffman.ExtraBits` | new_instruction_set.py:126-132 | every instruction has an entry, and each entry is the opcode argument bits of an instruction of that name |
| `OpcodeHuffman.ExtraBitsFit` | new_instruction_set.py:126-132 | with distinct names, each instruction's entry is its own opcode argument bits |
| `OpcodeHuffman.AssignOpcodes` | new_instruction_set.py:82-172 | an empty table gives no codes; otherwise every instruction gets exactly one code, each code is merge bits followed by one `x` per opcode argument bit, and every two codes differ at a bit neither uses for an argument |
| `OpcodeHuffman.MergeAll` | new_instruction_set.py:148-159 | merging until one item is left gives a good item holding every instruction of the starting items |
| `OpcodeHuffman.MergeStep` | new_instruction_set.py:149-159 | one turn leaves one item fewer, still a partition of good items, over the same instructions |
| `OpcodeHuffman.Leaves` | new_instruction_set.py:125-139 | the first loop gives one leaf per instruction, numbered by its index, partitioning the instructions |
| `OpcodeHuffman.PushLeaf` | new_instruction_set.py:135-139 | appending the next leaf keeps the heap a partition of the instructions seen so far, now including this one |
| `PyBits.BitCount` | new_instruction_set.py:304-308 | clearing the lowest set bit until nothing is left takes exactly as many turns as the number has set bits |
| `PyBits.ClearLowest` | new_instruction_set.py:308 | `x & (x - 1)` of a positive number is smaller and has one set bit fewer |
| `PyBits.AndNotZero` | new_instruction_set.py:200 | `x & ~m` is zero exactly when every bit of `x` is a bit of `m` |
| `PyBits.PopcountOnesShifted` | new_instruction_set.py:196-199 | `(1 << n) - 1` shifted left by any amount has exactly `n` set bits |
| `PyBits.BitOfField` | new_instruction_set.py:196-199 | the set bits of `(1 << n) - 1 << i` are exactly bits `i` to `i + n - 1` |
| `PyBits.BitOr` | new_instruction_set.py:315 | a bit of `x \| y` is set exactly when it is set in `x` or in `y` |
| `I32.CheckedAdd` | toolchain-rs/src/assembler/expr_parser.rs:139 | `checked_add` gives the exact sum exactly when it fits `i32` |
| `I32.CheckedSub` | toolchain-rs/src/assembler/expr_parser.rs:140 | `checked_sub` gives the exact difference exactly when it fits `i32` |
| `I32.CheckedMul` | toolchain-rs/src/assembler/expr_parser.rs:136 | `checked_mul` gives the exact product exactly when it fits `i32` |
| `I32.CheckedNeg` | toolchain-rs/src/assembler/expr_parser.rs:49 | `checked_neg` fails exactly on `i32::MIN` and otherwise negates |
| `I32.CheckedDiv` | toolchain-rs/src/assembler/expr_parser.rs:137 | `checked_div` fails exactly on a zero divisor or `i32::MIN / -1`, and otherwise rounds toward zero |
| `I32.CheckedRem` | toolchain-rs/src/assembler/expr_parser.rs:138 | `checked_rem` fails in the same cases, and otherwise gives the truncated remainder, smaller in magnitude than the divisor |
| `I32.TruncRemSign` | toolchain-rs/src/assembler/expr_parser.rs:138 | the remainder is the remainder of the magnitudes with the sign of the dividend |
| `I32.CheckedShl` | toolchain-rs/src/assembler/expr_parser.rs:141-148 | `checked_shl` fails exactly at an amount of 32 or more, and otherwise gives the value times two to the amount, modulo 2^32 |
| `I32.CheckedShr` | toolchain-rs/src/assembler/expr_parser.rs:149-156 | `checked_shr` fails exactly at an amount of 32 or more, and otherwise is an arithmetic shift that rounds toward negative infinity |
| `I32.BitNot` | toolchain-rs/src/assembler/expr_parser.rs:58-60 | `!v` on an `i32` is `-v - 1` |
| `I32.Wrap` | toolchain-rs/src/assembler/expr_parser.rs:141-148 | wrapping to 32 bits keeps a value that fits and otherwise differs from it by a multiple of 2^32 |
| `TriloAssembler.SameSymbolIsEquality` | trilo8bit/assembler/assembler.py:166-167 | two symbols are equal exactly when both their names and their locations are |
| `TriloAssembler.FirstPassSymbol` | trilo8bit/assembler/assembler.py:44-56 | a name not yet in the table gets a symbol at the current location; a name already there is a redefinition reporting the new symbol and the previous one |
| `TriloAssembler.SecondPassSymbol` | trilo8bit/assembler/assembler.py:86-97 | succeeds exactly when the first pass's table holds the name with the same location, returning the table's symbol |
| `TriloAssembler.PassesCons` | trilo8bit/assembler/assembler.py:35-97 | each pass over a program is its first request followed by the rest from the location after it |
| `TriloAssembler.TwoPassesAgree` | trilo8bit/assembler/assembler.py:121-139 | when the first pass succeeds, the second pass over a run defining the same labels with the same byte counts between them, given the first pass's table, finds every label unmoved and emits every byte of its run |
| `TriloAssembler.PassesAgreeFrom` | trilo8bit/assembler/assembler.py:121-139 | from any table, a successful first pass only extends it, and the second pass over an alike run with the extended table emits all of its bytes |
| `TriloAssembler.FunctionList.constructor` | trilo8bit/assembler/assembler.py:9-11 | a new list of functions to link is empty |
| `TriloAssembler.FunctionList.AddFunction` | trilo8bit/assembler/assembler.py:13-17 | a function not in the list is appended and one already in it changes nothing |
| `TriloAssembler.FunctionList.LinkAll` | trilo8bit/assembler/assembler.py:19-24 | linking keeps the list it started with as a prefix, holds no function twice, ends closed under calls, and every function it gained is called by one before it |
| `TriloAssembler.FunctionList.LinkNext` | trilo8bit/assembler/assembler.py:144-145 | generating the next function's code adds its callees, so the list grows by unseen functions or stays the same, and the linked prefix is one longer |
| `TriloAssembler.FunctionList.AddAll` | trilo8bit/assembler/assembler.py:114 | after adding a function's callees every one of them is in the list, the old list is a prefix, and every new entry is one of them |
| `TriloAssembler.State.Pass1` | trilo8bit/assembler/assembler.py:28-33 | the first pass starts with an empty table and no output, at the offset |
| `TriloAssembler.State.Pass2` | trilo8bit/assembler/assembler.py:64-69 | the second pass starts with the given offset and table and no output |
| `TriloAssembler.State.CreateSecondPass` | trilo8bit/assembler/assembler.py:58-60 | the second-pass state is new, at the same offset, with the first pass's table and no output |
| `TriloAssembler.State.InsertData` | trilo8bit/assembler/assembler.py:35-36 | the location moves on by the number of bytes in both passes; only the second pass appends them to its output |
| `TriloAssembler.State.InsertSymbol` | trilo8bit/assembler/assembler.py:44-56 | the first pass behaves as `FirstPassSymbol` and adds the symbol on success, the second as `SecondPassSymbol` without changing the table; neither moves the location |
| `TriloAssembler.State.GetSymbolLocation` | trilo8bit/assembler/assembler.py:77-84 | the answer is `Lookup` for the state's pass and table |
| `TriloAssembler.State.Run` | trilo8bit/assembler/assembler.py:141-145 | running a program in the first pass succeeds exactly when `FirstPass` does and leaves its table; in the second pass exactly when `SecondPass` does, appending its bytes and keeping the table |
| `TriloAssembler.JumpByNameAsWritten` | trilo8bit/assembler/assembler.py:82 | as written, in the second pass a jump to a defined label given by name fails; corrected, it succeeds exactly when the distance fits and then lands on the label |
| `TriloHelpers.BigEndianRoundTrip` | trilo8bit/assembler/__init__.py:47 | a value below `256^n` written as `n` big-endian bytes reads back as the value |
| `TriloHelpers.BigEndianOfValue` | trilo8bit/assembler/__init__.py:47 | every byte string is the big-endian form of its own value |
| `TriloHelpers.ItemsRoundTrip` | trilo8bit/assembler/__init__.py:49 | a sequence converts exactly when every item fits the width, and its bytes read back, item by item, as the sequence |
| `TriloHelpers.ScalarRoundTrip` | trilo8bit/assembler/__init__.py:41-47 | with whole-byte width one integer converts exactly when it fits, into `bits / 8` bytes that read back as it |
| `TriloHelpers.EncodeKeeps` | trilo8bit/assembler/__init__.py:27-30 | ASCII encoding succeeds exactly when every character is below 128, keeping each character as its code |
| `TriloHelpers.DataOps` | trilo8bit/assembler/__init__.py:32-34 | the requests of a data helper emit exactly its bytes |
| `TriloHelpers.Label` | trilo8bit/assembler/__init__.py:13-17 | `label` defines the named label at the current location, as the pass's `insert_symbol` does |
| `TriloHelpers.LabelledData` | trilo8bit/assembler/__init__.py:32-35 | the helper's label and bytes act as `DataOps`, fail only with an assembler error, and return a label exactly when one was given, or always as written |
| `TriloHelpers.EmitOnly` | trilo8bit/assembler/__init__.py:19-21 | raw data leaves the first pass's table as it is and is emitted as is by the second |
| `TriloHelpers.StringData` | trilo8bit/assembler/__init__.py:23-35 | non-ASCII text fails without changing the state; otherwise the encoded bytes with their label act as `DataOps` |
| `TriloHelpers.Data` | trilo8bit/assembler/__init__.py:37-54 | a width that is not whole bytes or an integer that does not fit fails before any label is defined, with no change to the state; otherwise the bytes with their label act as `DataOps` |
| `TriloHelpers.TwoUnlabelledData` | trilo8bit/assembler/__init__.py:37-54 | as written, two unlabelled data in one program fail the first pass; corrected, the first pass succeeds with no label and the second emits both data |
| `TriloInstructions.ParseIKeeps` | trilo8bit/assembler/instructions.py:12-20 | an immediate is accepted exactly when it fits `bits` bits unsigned or signed; a non-negative one is stored as itself, a negative one as its two's complement which reads back as it; a zero-width field raises on the negative shift |
| `TriloInstructions.SignedFieldKeeps` | trilo8bit/assembler/instructions.py:28-34 | a signed field is accepted exactly inside the signed range, reads back as the value, and otherwise reports the given error |
| `TriloInstructions.JumpLandsOnTarget` | trilo8bit/assembler/instructions.py:38-46 | a jump to a located target is refused with "Jump target too far" exactly when the distance from the word after it does not fit, and otherwise the word after the jump plus the field read as signed is the target |
| `TriloInstructions.JumpDistanceKept` | trilo8bit/assembler/instructions.py:28-34 | a numeric distance is accepted exactly in the signed range and reads back as itself; otherwise it is "Value out of range" |
| `TriloInstructions.FirstOccurrencesDistinct` | trilo8bit/assembler/instructions.py:53 | the ordered counter's keys are distinct |
| `TriloInstructions.ArgChars` | trilo8bit/assembler/instructions.py:56-63 | the argument characters are exactly the encoding's characters other than space, `0`, `1` and `_` |
| `TriloInstructions.ArgFieldsValid` | trilo8bit/assembler/instructions.py:53-69 | an encoding passes exactly when its non-space characters make whole bytes and every argument character is a lowercase letter; then there is one field per distinct letter, each as wide as its number of occurrences |

## Left out

Files that repeat code modelled elsewhere:
- `assembler/localized_file.c` is the same code as `common/localized_file.c`. It is modelled once, in `LocalizedFile`.
- `assembler/util.c` holds `parse_digit`, which is the same as the `common/util.c` one. It is modelled once, in `CUtil.ParseDigit`.
- `toolchain-rs/disassembler/build.rs` repeats the generators of `toolchain-rs/build.rs`: naming, `expand_encoding`, `make_opcode_table`, opcode ranges and shifts. They are modelled once, in `Generators`, `OpcodeTable` and `FieldLayout`.
- `toolchain-rs/disassembler/src/util.rs` is identical to `toolchain-rs/src/util.rs`. It is modelled once, in `FieldUtil`.
- `toolchain-rs/disassembler/src/instruction.rs` declares the same `Gpr` and `ControlRegister` conversions as `toolchain-rs/src/instruction.rs`. They are modelled once, in `Registers`. The rest of that file is generated code.
- `toolchain-rs/src/emulator/memory.rs` has the same `Ram` and `Rom` as `toolchain-rs/src/memory.rs`. They are modelled once, in `Memory`.
- The address and page-table packings of `emulator-rs/src/cpu_types.rs` have the same layout as the toolchain's. They are modelled once, in `CpuTypes`, and `CpuTypes.PhysicalTryFromU32` covers the one conversion that differs.

Effects replaced by parameters or not modelled:
- File I/O, standard output and error, and verbose tracing are not modelled. This includes `fopen`/`fgetc`/`fprintf`, `read_to_string`, loading json5 and serde, and the diagnostics printers. File contents are inputs, and written text is an appended sequence.
- Allocation failure (`malloc_with_msg`, `realloc_with_msg`) is not modelled: allocation always succeeds. A read error from `fgetc` in the token loader is not modelled either.
- The C and Rust text that the generators write (`generate_instructions.py`, `generate_instruction_handler.py`, `build.rs`) is not modelled. The tables that text encodes are modelled instead.
- `dev_memory_init_*`, `dev_memory_deinit`, the registration of mappings, `dev_uart_deinit` and `dev_uart_update` do device plumbing and are not modelled.
- `Ram::with_rng` fills memory with random content and is not modelled.
- Reading Intel HEX text with the `ihex` crate (`Rom::from_ihex`, the `read_ihex` front end) is not modelled. The records or segments are parameters.
- Hash-map iteration order in the Rust assembler is not modelled. Symbol tables are maps.

Rust code that is unfinished or generated at build time:
- `CpuState::step` and the generated `Instruction::try_from`, opcode handlers and microcode tables are generated code and are not modelled. Their generators are modelled instead.
- In `toolchain-rs/src/cpu.rs`, `read_memory`, `write_memory`, `memory_operation`, `page_fault`, `get_cr` and `set_cr` are `todo!()` or call into code that is not there, so they are not modelled.
- In `emulator-rs/src/cpu.rs`, `read_memory_virt`, `write_memory_virt` and `step` call generated code and are not modelled. `EmulatorCpu.CpuState.MapMemory` takes the segment (`address.1` in the source) as a parameter of its own, beside the page number and offset.
- The system `step` in `emulator-rs/src/system.rs` drives the CPU's generated step and is not modelled.
- `get_symbol_value`, `push_scope` and `pop_scope` in `toolchain-rs/src/assembler/mod.rs` and `state.rs`, and `instruction`/`pseudo_instruction` in `parser.rs`, are `todo!()` and are not modelled. `get_current_pc_symbol` is not modelled either.
- `AssemblerState.Pass`: `parse_file` is replaced by a sequence of define and emit requests, so the parsing inside a pass is not modelled.
- `ParseState`: a symbol's section is an `Option`, standing for "defined in a section or not". The source's field has the plain section type.

Weaker or bounded contracts:
- `AsmTables.Assembler.DefineSymbol`: in pass 2 a symbol missing from the table is reported as a failure. The source dereferences a null pointer there (`assembler/assembler.c:236-237`), and that crash is not modelled.
- `AsmTables.Assembler.GetSymbolValue`: in pass 2 a symbol missing from the table is reported as a failure. The source dereferences a null pointer there (`assembler/assembler.c:274-275`), and that crash is not modelled.
- `CAssembler.Assemble`: the `depth` parameter bounds `.include` nesting so the recursion terminates, and `IncludeTooDeep` reports hitting it. The source has no bound: a file that includes itself recurses until the process runs out of resources.
- `CAssembler.Include`: the same `depth` bound applies to `.include`.
- `CAssembler.AssembleFiles`: the same `depth` bound applies to each top-level file.
- `CExpressions.Evaluate`: the method runs the corrected check for `(` at `assembler/expressions.c:176`. The as-written assertion failure is stated by `ExprPrecedence.ParenCheckAsWritten`.
- `CExpressions` and `PseudoOps` read token sequences that may hold `Number`, `Str`, `Char` and `Operator` tokens. `assembler/tokenizer.c:50-91` never produces them: a digit, a quote or an operator character is an error token. `TOKEN_STRING`, which `assembler/pseudo_instructions.c:38,147,178` tests, is declared nowhere (`assembler/tokenizer.h:24` has only a commented-out `TOKEN_QUOTED_STRING`). The model keeps these consumers over the richer token type, so it covers streams the tokenizer as written cannot produce.
- `CExpressions.Apply`: signed overflow of `+`, `-`, `*` and unary `-`, a shift amount outside 0..31, a negative or overflowing left shift, division by zero and `INT_MIN / -1` are C undefined behaviour. The model reports them as an `UndefinedBehaviour` failure. What the compiled assembler does in those cases is not modelled.
- `CStack.Stack.Push`: requires a positive capacity, because from capacity 0 the growth loop of `_stack_inflated_size` never terminates (see "## Findings").
- `CStack.InflatedSize`: requires a positive old size or a request the old size already covers, because otherwise the source's loop never terminates.
- `CStack.Stack.Resize`: on the as-written path it requires a positive capacity or a size that already fits, for the same reason. The corrected path has no such requirement.
- `CStack.AssemblerStack.Push`: requires a positive capacity, because doubling 0 stays 0 and the store would overrun.
- `Disassembler.Disassembler.Next`: the `u16` offset is a natural number, so its wrap after 65536 words is not modelled.
- `Image.RomFromSegments`: the `u32` sums in `end()` and `address_base + offset` are unbounded, so their overflow is not modelled.
- `FieldUtil.Field`: the generic `T` conversions of `field` and `sign_extend_field` are modelled for `u16` inputs only.
- `GenInstructions.GenerateEntry`: the error message for too many arguments calls `len(args)` (`assembler/generate_instructions.py:79`). There `args` is the module's argparse `Namespace` (line 41), which has no length, so the source raises `TypeError` instead of the intended `ValueError`. The model reports `TooManyArgs` either way.
- `GenInstructions.ArgSize`: the size after an argument type's first letter is read as decimal digits only. Python's `int()` (`assembler/generate_instructions.py:61`) also accepts a sign, surrounding whitespace and `_` between digits, so `s-3` gives size -3 and `u 4` gives 4 there. The model reports both as `BadSize`, because sizes are natural numbers throughout the model.

The instruction-set design script and the 8-bit prototype:
- `FieldAllocation.EncodingsBelowOpcode`: it tries only the given argument order. The loop over `itertools.permutations` is not modelled.
- `_parallel_product_min` uses multiprocessing and tqdm, and is not modelled. `_merge_fields`, the printing in `field_allocations`, and the module-level run of `new_instruction_set.py` are not modelled either.
- `OpcodeHuffman.AssignOpcodes`: `cosmetic_instruction_pairs` and `_pop_from_list` are not modelled. When `heapq` has to choose between items with equal keys, the model takes a fixed scan order. The `bits_used > 16` exception under `print_fun` is not modelled.
- `TriloAssembler`: a program, which in the source is Python code calling `Function.call`, `inline` and `scoped_state`, is modelled as a sequence of operations. The `exec`-based `_generate` and its `itertools.product` loop are not modelled.
- `TriloHelpers`: `datafile` reads a file and, as written, refers to the undefined names `b` and `label_name`. It is not modelled.
- `CAssembler.ReadOperand`: runs the corrected operand read. A register operand that is not an identifier is the ordinary register error there, while the source aborts (`assembler/assembler.c:17`). `CAssembler.OperandAt` with `asWritten` and `CAssembler.RegisterNotIdentifier` state the abort.
- `FieldLayout.OutputArm`: requires every literal piece to be non-empty and the pieces to fit 16 bits. The source panics outside these cases: `u16::from_str_radix("", 2).unwrap()` fails on an empty literal (`toolchain-rs/build.rs:358`), and `offset -=` underflows when the pieces are wider than 16 bits (`toolchain-rs/build.rs:357-363`). Those panics are not modelled as outcomes.
- `LegacyParser.ScopeStep`: for an end of line or `;`, `scope_rest` `continue`s after `reset_peek()` without consuming the token (`toolchain-rs/src/assembler/parser.rs:57`), so the loop peeks the same token forever. The model gives the turn's action, `PeekAgain`, and has no loop; that non-termination is not modelled.
- `TriloHelpers.StringData`: only the default `ascii` codec is modelled. The `encoding` argument of `string_data` (`trilo8bit/assembler/__init__.py:23`) is not a parameter, so a codec such as `utf-8`, which encodes non-ASCII text instead of failing, is not covered.

## Findings

| source | as written | input that shows it | evidently intended | confidence | as-written member | corrected member |
|---|---|---|---|---|---|---|
| toolchain-rs/toolchain_core/instruction.rs:257-260 | the control-register decode converts a 4-bit field with `ControlRegister::try_from(...).unwrap()`, which panics for values 8..15 | the word `0x080f` | an undecodable word gives `None`, as every other invalid encoding does | high, not executed | `CoreInstruction.DecodePanicsOnControlRegister8` | `CoreInstruction.DecodeEncode` |
| assembler/expressions.c:176 | after reducing to the matching bracket, the assertion tests for `)` where the stack top is `(` | the token sequence `(`, number 1, `)`, end of line (this tokenizer produces neither `(` nor numbers, so no source text reaches it today) | the assertion checks for `(`, and a bracketed expression evaluates to its contents | high, not executed | `ExprPrecedence.ParenCheckAsWritten` | `ExprSemantics.EvaluateTree` |
| assembler/pseudo_instructions.c:104-105 | the result of `assembler_output_word`, which is an address, is tested as a success flag | `.dw x`, with `x` a symbol, as the first word of `.text`, at word address 0 | the directive succeeds whatever the address | high, not executed | `PseudoOps.AddressZeroAsWritten` | `PseudoOps.EmitAllEffect` |
| assembler/pseudo_instructions.c:41 | string bytes are `char`, so a byte of 0x80 or above is sign-extended before the shift and OR | a `.db` string token holding the bytes `01 80` gives the word `0xff80` (this tokenizer produces no string token and `TOKEN_STRING` is not declared, so no source text reaches it today) | the word is `0x0180` | medium, not executed | `PseudoOps.SignExtendedAsWritten` | `PseudoOps.PackStringBytes` |
| assembler/assembler.c:365-383 | an unsigned field accepts values up to `2^n` inclusive | the value 8 in a 3-bit field | unsigned fields accept `0 .. 2^n - 1` | high, not executed | `CAssembler.NumberAsWritten` | `CAssembler.NumberForInstructionMeaning` |
| emulator-rs/src/memory.rs:79 | ROM building subtracts the previous segment's end from the next offset without checking for overlap | two segments where the second starts before the first ends | overlapping segments are reported as an error, as the toolchain copy does | high, not executed | `Image.RomFromSegmentsPanicsOnOverlap` | `Image.RomSpecAgrees` |
| common/ihex.c:63-66 | `read_byte` maps `a`-`f` and `A`-`F` to 0..5 | the writer's own record `:010000000af5` | hexadecimal letters map to 10..15, so the reader accepts what the writer writes | high, not executed | `IhexReader.AsWrittenRejectsOwnOutput` | `IhexReader.ReadWriteRoundTrip` |
| common/stack.h:77-81 | the zero-fill length of `STACK_RESIZE` is computed after the reserve, so it is always 0 | resizing a stack from 0 to 2 items | the new items are zeroed, as the comment says | high, not executed | `CStack.ResizeLeavesGarbage` | `CStack.ResizedSlotsKeep` |
| common/stack.h:9-16 | growth from size 0 stays at 0, so the loop never ends | old size 0 and request 1 | a zero capacity grows to 1 first, and growth reaches any request | high, not executed | `CStack.GrowthStuckAtZero` | `CStack.CorrectedInflatedSize` |
| common/util.c:42-44 | `s1 < e2 && s2 < e1` counts an empty interval as overlapping | `[5, 5)` and `[0, 10)` | intervals overlap exactly when they share a point | medium, not executed | `CUtil.OverlapAsWritten` | `CUtil.OverlapMeansCommonPoint` |
| emulator/devices/memory.c:58 | a `char` byte of 0x80 or above is sign-extended before it is ORed into the low half | the bytes `12 80` give the word `0xff80` | the word is `0x1280` | medium, not executed | `DeviceMemory.SignedCharCorruptsHighByte` | `DeviceMemory.CopyPlacesBytes` |
| emulator/devices/memory.c:98-101 | the image size is set to each record's end, so a later record at a lower address shrinks it | a two-byte record at 0x10 followed by one at 0x00 leaves 1 word in use | the image covers every record | medium, not executed | `DeviceMemory.LaterRecordShrinksImage` | `DeviceMemory.StoreRecordCorrected` |
| emulator/devices/memory.c:101 | growing the buffer leaves the gap before the new record uninitialised | a lone record of two bytes at byte address 4 leaves words 0 and 1 unset | the gap is zero | medium, not executed | `DeviceMemory.GapLeftUninitialised` | `DeviceMemory.GapZeroedCorrected` |
| emulator/devices/memory.c:98-103 | the record end is computed in 16 bits and wraps | a one-byte record at 0xffff is reported as a buffer overrun | the end is computed without wrapping | medium, not executed | `DeviceMemory.WrappedEndOverruns` | `DeviceMemory.StoreRecordCorrected` |
| emulator/devices/uart.c:29-42 | reading the value register pops the read FIFO without checking that it holds a byte | reading offset 2 of a fresh UART, then offset 0, reports 7 bytes waiting | an empty FIFO reads 0 and keeps a count of 0 | medium, not executed | `Uart.ReadEmptyUart` | `Uart.DevUart.Read` |
| emulator-rs/src/system.rs:57-68 | addresses up to RAM's maximum go to RAM, and device 0, which holds the ROM, starts at address 0 | with the 1M-word RAM that `SystemState::new` allocates, every read above the RAM gives `None` | the ROM is readable at its own window | medium, not executed | `System.RomUnreachableAsWritten` | `System.RomReadable` |
| toolchain-rs/src/assembler/parser.rs:182 | unary minus is unchecked | `-(-2147483647 - 1)` | negating `i32::MIN` is an out-of-range error, as in the expression parser | high, not executed | `LegacyParser.ExampleNegationPanics` | `ExprParser.ValueNegated` |
| toolchain-rs/src/assembler/parser.rs:238-250 | binary precedence is reversed: `* / %` binds loosest and `\|` tightest | `1 + 2 * 3` gives 9 | the usual precedence, giving 7 | high, not executed | `LegacyParser.ExampleReversedPrecedence` | `ExprParser.ExampleSimplePriority` |
| trilo8bit/assembler/assembler.py:82 | the second pass refers to the undefined name `name` | any pass-2 jump by name | the jump is resolved through the symbol's name | high, not executed | `TriloAssembler.JumpByNameAsWritten` | `TriloInstructions.JumpLandsOnTarget` |
| trilo8bit/assembler/__init__.py:32,51 | `data` without a label inserts the symbol `None`, so a second unlabelled datum is a redefinition | two `data` calls without labels | unlabelled data defines no symbol | medium, not executed | `TriloHelpers.TwoUnlabelledData` | `TriloHelpers.TwoUnlabelledData` |
| assembler/assembler.c:17 | `parse_gpr` and `parse_cr` pass the operand token to `push_identifier_to_buffer`, whose `assert` requires an identifier, after already reporting the missing register | `add 5, r1, r2` | the "expected register" error is reported and the line is rejected | high, not executed | `CAssembler.RegisterNotIdentifier` | `CAssembler.ReadOperand` |
