# A verified model of gbas

gbas assembles Game Boy source text into an ELF object file. The pipeline is

    lines of text -> tokens -> syntax tree -> (constant folding) -> ELF object -> bytes

Each stage is modelled in the form the program gives it and proved against an inverse or a
simpler description. The stages are then composed: what stands in each program section of the
file, found by name through the file's own headers and name table, is exactly the code of the
instructions the source text placed there; and it is settled exactly when two texts give the same
file, and when the file determines the instructions it was made from.

| file | models |
|---|---|
| `CharUtils.dfy` | character classes |
| `Lexer.dfy` | one line as a longest-match function and as a declarative relation |
| `Tokenizer.dfy` | the six-state machine, with its termination measure |
| `Ast.dfy`, `Grammar.dfy` | syntax trees, the instruction table, the recursive-descent productions as functions |
| `Parser.dfy` | the parser object with its cursor |
| `Printer.dfy`, `SourceText.dfy` | the inverse of the expression parser, then of the whole front end |
| `Vocabulary.dfy`, `Conservation.dfy` | the words, literals and operators of the language spelled out; nothing lost from tokens to program |
| `Folding.dfy` | the constant folder and its meaning |
| `Encoding.dfy` | opcodes, the format table, and a decoder |
| `ElfModel.dfy`, `Elf.dfy` | the ELF object: its states and invariants, and the mutable object |
| `Assembling.dfy`, `Assembler.dfy` | the assembling loop: as steps between states, and over the mutable object |
| `Bytes.dfy`, `ElfImage.dfy`, `ElfWriter.dfy` | byte orders, the file image and how to read it, the two-pass writer |
| `Optimizing.dfy` | constant folding seen from the assembler |
| `FileFormat.dfy` | the compiled file field by field |
| `EndToEnd.dfy`, `Recovery.dfy` | the pipeline of `main`, and what a file tells of its source |

Methods that change state are proved equal to a function of the old state; the lemmas are about
those functions. Tables, character classes and constants, on which a function and its specification
both rest, are pinned by lemmas that spell them out (`LexOneCharacter`, `MakeInstructionIff`,
`PrimaryIff`, `OperandIff`, `CompiledFileHeader`, `CompiledSectionHeader` and others). Exceptions are error values, and the ELF object an exception leaves behind is part of
each contract; where the parser's cursor stands after an exception is not. Undefined behaviour of C++ is an error outcome: constant division by zero, and
a decimal literal beyond an `int`. The host is little-endian. `Number` is a byte, so every
literal and every folded node is reduced modulo 256.

The file format is that of the System V ABI, chapter 4 "Object Files", sections "ELF Header",
"Sections" and "String Table".

Where the code and its own comments disagree the model follows the code:

- The grammar comment promises label lines (include/parser.hpp:457), but `label()` leaves the
  colon unread, so no program with one parses (`LabelsNeverParse`); the tokenizer also rejects `:`.
- The grammar comment requires one comma between two operands and none elsewhere
  (include/parser.hpp:446-448). The code skips any run of commas in an operand list
  (`CommasSkipped`). Two operands need a comma between them exactly when the first is an
  expression and the second starts with a minus sign; otherwise they are read as two without
  one, and in that case as one difference (`TwoOperandsRead`).
- The class comment says the assembler evaluates constant expressions (include/assembler.hpp:82-85),
  but `assemble` never calls `evaluate`, and `evaluate` rejects directives (`FoldingFailsIff`).
  Where `evaluate` succeeds, calling it first would change nothing (`FoldingKeepsObject`).
- The format table lists an immediate for `jr`, `jp` and `call` (`ImmediateFormats`), but the code
  rejects it: a listed one-operand form is assembled exactly when the operand is a register or
  pair with a number (`ListedFormEmitsIff`). Two-operand instructions are accepted and emit nothing.
- 8-bit `inc` and `dec` do not shift the register number, so several share one byte
  (`ToldApartIff` and `ParsedToldApartIff` give exactly which).
- `e_shnum` does not count the null entry of the header table (`ShnumMissesLast`).

## Model

| member | source | states |
|---|---|---|
| Lexer.LexIffSpells | src/tokenizer.cpp:34-136 | A line is accepted with tokens `ts` if and only if it spells `ts` in the declarative relation (free spaces, trailing comment, words ended only by a space, a closing symbol, an operator or the end of line) |
| Lexer.LexedTokensAreTokens | src/tokenizer.cpp:41-130 | Every token of an accepted line is a word, a closed quoted string or a single symbol |
| Lexer.LexOneToken | src/tokenizer.cpp:53-130 | A token at the start of a line is cut off whole, and the rest of the line is tokenized as if it stood alone |
| Lexer.SpacedRelexes | src/tokenizer.cpp:41-135 | Strings joined by single spaces tokenize back to themselves if and only if each is a token |
| Lexer.RelexNormalised | src/tokenizer.cpp:41-135 | Normalising an accepted line to single spaces changes none of its tokens |
| Lexer.LexConservesCharacters | src/tokenizer.cpp:41-135 | Concatenating the tokens gives the line without its unquoted spaces and its trailing comment: no character is lost, invented or reordered |
| Lexer.GluedToWord | src/tokenizer.cpp:103-125 | Right behind a word the line fails if and only if the next character is none of space, comma, closing parenthesis and operators; so `(`, a quote or a semicolon glued to a word is an error |
| Lexer.InvalidTokenColumn | src/tokenizer.cpp:81-124 | The column of an invalid token is the first one at which the line can no longer be completed: what precedes it is accepted, no continuation from it is |
| Lexer.UnterminatedIff | src/tokenizer.cpp:87-101 | A rejected line fails for an unterminated string, at its very end, if and only if a closing quote would complete it, which is if and only if anything would |
| Lexer.LexOneCharacter | src/tokenizer.cpp:53-86 | As a line, a single character is a token if and only if it is a letter, a digit or one of `. _ \ ( ) , + - * /`, nothing if and only if it is a space or `;`, an open string if and only if it is a double quote, and an invalid token otherwise |
| Lexer.WordGrowsIff | src/tokenizer.cpp:103-125 | A character makes a word longer if and only if it is a letter, a digit or one of `. _ \` |
| Lexer.QuotedTakesAnything | src/tokenizer.cpp:87-102 | Whatever holds no quote makes one token between quotes |
| Tokenizer.TokenizeLine | src/tokenizer.cpp:35-135 | The six-state machine terminates on every line, with exactly the tokens or the error of the longest-match function, and the line mark |
| Tokenizer.Tokenize | src/tokenizer.cpp:29-140 | The tokens of all lines in order, a line mark after each and an end mark, or the first line's error |
| Tokenizer.TokenizeReportsFirstBadLine | src/tokenizer.cpp:34-140 | Tokenizing fails exactly when some line does, and reports the number of the first such line and its offending column |
| Ast.LexemeFound | src/parser.cpp:26-75 | Each instruction type with an entry in the table is found under its own word |
| Ast.FoundLexeme | src/parser.cpp:334-341 | The table maps no two words to one type: looking up a word and taking the type's word gives it back |
| Parser.Parser.Next | src/parser.cpp:77 | Returns the token under the cursor or the out-of-range error; the cursor advances either way |
| Parser.Parser.PeekNext | src/parser.cpp:89 | The token after the cursor, or the out-of-range error |
| Parser.Parser.LabelNode | src/parser.cpp:118-122 | Takes the name only, so the colon stays under the cursor |
| Parser.Parser.Primary | src/parser.cpp:290-305 | The cursor-moving method does what the production does: same node, same cursor, same error |
| Parser.Parser.Unary | src/parser.cpp:277-288 | As above, for chains of negations |
| Parser.Parser.Multiplication | src/parser.cpp:257-271 | As above; the left-associative loop over `*` and `/` equals the recursive production |
| Parser.Parser.Addition | src/parser.cpp:237-251 | As above, for `+` and `-` |
| Parser.Parser.Operand | src/parser.cpp:179-188 | As above; a register name counts as one only at the start of an operand |
| Parser.Parser.Instruction | src/parser.cpp:148-177 | As above; at most three operands, commas skipped anywhere, the count checked against the table |
| Parser.Parser.DirectiveNode | src/parser.cpp:134-146 | As above; a directive takes its arguments unless a line mark comes too early |
| Parser.Parser.Line | src/parser.cpp:105-116 | As above; directive, label or instruction by the first word |
| Parser.Parser.Parse | src/parser.cpp:91-103 | From any cursor the loop terminates, every turn moving the cursor forward or failing, with the program's root or its error |
| Printer.DigitsRead | src/parser.cpp:303-305 | A number written in decimal is a number token and reads back as that number |
| Printer.UnaryReads | src/parser.cpp:277-299 | `unary()` inverts printing of any negation tree |
| Printer.MultiplicationReads | src/parser.cpp:257-271 | Reading a printed term brings the multiplication loop to that very term, behind it |
| Printer.AdditionInvertsPrint | src/parser.cpp:237-299 | For every grammar-shaped tree and any tokens behind it that do not start with an operator, `addition()` returns the tree and stops exactly behind it |
| Printer.PrintIsUnambiguous | src/parser.cpp:237-299 | No two grammar-shaped trees print alike |
| Printer.AdditionPrints | src/parser.cpp:237-305 | Whenever `addition()` succeeds on lexed tokens its tree is grammar-shaped, prints back to exactly the tokens consumed (numbers reduced modulo 256), and no operator is left |
| Printer.AdditionIffPrint | include/parser.hpp:450-454 | On tokens whose numbers are canonical bytes, `addition()` yields `e` and stops at `q` if and only if `e` is grammar-shaped, its printing stands there, ends at `q`, and no operator follows |
| SourceText.InstructionStopsAtNewline | src/parser.cpp:148-177 | A successful `instruction()` stops exactly at a line mark with an operand count its table entry allows |
| SourceText.InstructionIsSource | src/parser.cpp:148-188 | Its operands are registers or grammar-shaped expressions that do not start with a register name |
| SourceText.CommasSkipped | src/parser.cpp:151-157 | Any run of commas in an operand list leaves operands and outcome as if it were not there |
| SourceText.TwoOperandsRead | src/parser.cpp:151-187 | Two operands with any number of commas before, between and behind them are read as those two if and only if a comma stands between, the first is a register or the second does not start with a minus sign; in the remaining case as their difference, one operand |
| SourceText.LineReads | src/parser.cpp:105-116 | A printed line is read back whole, the cursor on its line mark |
| SourceText.ProgramReads | src/parser.cpp:93-103 | So is a printed program, whatever has been read before it |
| SourceText.ProgramIsSource | src/parser.cpp:93-116 | Whatever parses from lexed tokens consists of printable lines only |
| SourceText.TextTokenizes | src/tokenizer.cpp:29-140 | The text of a program tokenizes to the printed tokens, line mark by line mark |
| SourceText.TextRoundTrip | src/parser.cpp:93-305 | Printing a program to text, tokenizing and parsing yields exactly that program if and only if it consists of well-formed section directives and arity-correct instructions with grammar-shaped operands |
| SourceText.ParsedIsSource | src/parser.cpp:91-188 | Every text that parses at all parses to such a program |
| SourceText.ReparsePrinted | src/parser.cpp:91-188 | Printing what was parsed and parsing it again changes nothing |
| SourceText.LabelLineFails | src/parser.cpp:105-122 | A label definition at the start of a line makes the whole program fail, whatever the other tokens are |
| SourceText.LabelsNeverParse | include/parser.hpp:443-457 | A parsed program never holds a label line, against the grammar's promise |
| Vocabulary.MnemonicIff | src/parser.cpp:26-75 | Exactly the 44 listed words are instructions |
| Vocabulary.ArityIff | src/parser.cpp:26-75 | Exactly which instruction types take none, one and two operands, as three lists of types |
| Vocabulary.MakeInstructionIff | src/parser.cpp:158-177 | A listed word makes its instruction of the operands given if and only if it takes that many; every other word and count is a parser exception |
| Vocabulary.EmittingIsSource | src/parser.cpp:148-177 | Every instruction that emits a byte, `reti` and the register `m` aside, has a source text that parses to it |
| Vocabulary.PrimaryIff | src/parser.cpp:290-305 | A token is a label if and only if it is a letter or underscore followed by letters, digits and underscores and no mnemonic; a digit string is its value modulo 256 if and only if that is at most 2147483647, and undefined otherwise; anything else is a parser exception |
| Vocabulary.DecimalReads | src/parser.cpp:303-305 | Digits are read in base ten, most significant first, leading zeros and all |
| Vocabulary.LiteralLineIff | src/parser.cpp:303-305 | The line `ld a, n` parses with the literal n modulo 256 if and only if n is at most 2147483647, and is undefined otherwise |
| Vocabulary.OperandIff | src/parser.cpp:14-20 | At the start of an operand exactly a f b c d e h l are registers and af bc de hl sp pc pairs; every other operand is an expression and never a register |
| Vocabulary.DirectiveIff | src/parser.cpp:134-146 | The only directive that parses is `.section` with one argument, any token but a line mark |
| Vocabulary.LineIff | src/parser.cpp:105-116 | The first word decides: an instruction by its mnemonic, `.section`, or a name followed by a colon; no other line parses |
| Vocabulary.OneOperatorReads | src/parser.cpp:237-284 | What the four operators are called, and that the minus sign binds tightest |
| Vocabulary.TwoOperatorsRead | src/parser.cpp:237-271 | `*` and `/` bind tighter than `+` and `-`, and operators that bind alike group to the left |
| Vocabulary.ThirdOperandFails | src/parser.cpp:151-176 | A third operand ends the list and makes the instruction a parser exception, whatever follows |
| Vocabulary.TextErrors | src/parser.cpp:77-103 | A text that tokenizes but does not parse fails with a parser exception unless it holds a literal beyond an `int`; the parser never reads past the end of its tokens |
| Conservation.InstructionConserves | src/parser.cpp:148-177 | Printing a parsed instruction gives back the tokens read, commas aside, numbers modulo 256 |
| Conservation.ProgramConserves | src/parser.cpp:93-116 | So does printing a parsed program, line marks aside, up to the end mark at which it stops |
| Conservation.TextConserves | src/parser.cpp:91-116 | For every text that parses: no token before an end mark is lost, invented or reordered |
| Folding.Evaluate | src/assembler.cpp:672-717 | The evaluator computes the folding function, root children in order up to the first failure |
| Folding.EvaluateInstruction | src/assembler.cpp:719-739 | Instructions keep their type and fold their operands |
| Folding.EvaluateBinaryOp | src/assembler.cpp:741-800 | Both operands are folded; two numbers give one wrapped byte, division by zero an error, anything else a rebuilt node |
| Folding.EvaluateUnaryOp | src/assembler.cpp:802-819 | Likewise for negation |
| Folding.FoldingPreservesValue | src/assembler.cpp:672-819 | If evaluation succeeds, an expression keeps its 8-bit value under every assignment of bytes to labels and registers, undefined division included |
| Folding.FoldingPreservesMeaning | src/assembler.cpp:672-819 | The same node by node through whole programs: values, instruction types and node kinds are preserved, except that an operator may have become a number |
| Folding.ClosedFoldsToValue | src/assembler.cpp:741-819 | An expression without labels and registers folds to the single number of its value, or fails where it has none |
| Folding.OnlyClosedFoldsToNumber | src/assembler.cpp:741-819 | Nothing else folds to a number |
| Folding.FoldingFailsIff | src/assembler.cpp:672-819 | Evaluation fails if and only if the tree holds a directive or invalid node, or a closed subexpression that divides by zero |
| Folding.FirstFaultIsTheError | src/assembler.cpp:672-819 | And it fails with the first fault in evaluation order: a foreign node or invalid operator, or a division of closed operands by zero |
| Folding.FoldedIsNormal | src/assembler.cpp:672-819 | The result has no negation of a number and no operator on two numbers |
| Folding.NormalFormStays | src/assembler.cpp:672-819 | A tree without such an operator and without foreign nodes is returned unchanged |
| Folding.FoldingIsIdempotent | src/assembler.cpp:672-819 | Evaluating twice changes nothing more |
| Folding.AgreesThroughoutIff | src/assembler.cpp:744-810 | A closed expression and everything in it fold to their unbounded integer values modulo 256, undefined division included, if and only if at each division of two defined integers the byte of the quotient is the quotient of the bytes and a non-zero divisor has a non-zero byte |
| Folding.FoldingIsModular | src/assembler.cpp:744-810 | In particular wherever dividends and divisors are bytes over the integers |
| Folding.DivisionFreeFolding | include/parser.hpp:264-277 | In particular without division |
| Folding.FoldingIsExact | include/parser.hpp:264-277 | If every intermediate integer fits a byte, the folded byte is the truncating integer value itself |
| Folding.DivisionBreaksModularity | src/assembler.cpp:784-791 | An input on which a division does not wrap, and the folded byte is not the integer value modulo 256 |
| Encoding.RegisterNumbering | src/assembler.cpp:90-111 | The encoder numbers exactly b, c, d, e, h, l, m, a, as 0 to 7 in this order |
| Encoding.PairNumbering | src/assembler.cpp:113-126 | It numbers exactly the pairs bc, de, hl, af, as 0 to 3 in this order |
| Encoding.EncodeRAIsSum | src/assembler.cpp:133-167 | Opcode and register number do not overlap: the byte is 8 times the opcode plus the register |
| Encoding.EncodeDIsSum | src/assembler.cpp:210-235 | Likewise for register pairs: prefix, pair and opcode occupy separate bits |
| Encoding.EncodeRBytes | src/assembler.cpp:173-192 | Without the shift, the register number runs into the opcode: the bytes that 8-bit `inc` and `dec` really give |
| Encoding.BareFormats | src/assembler.cpp:359-453 | For every type in the format table, the bare form is listed if and only if the opcode table has a byte for it, so neither lookup lets the other down |
| Encoding.RegisterFormats | src/assembler.cpp:359-453 | The types that accept one register |
| Encoding.PairFormats | src/assembler.cpp:359-453 | The types that accept one register pair; none accepts an indirect one |
| Encoding.ImmediateFormats | src/assembler.cpp:359-453 | Exactly `jr` lists an 8-bit immediate as its one operand, exactly `jp` and `call` a 16-bit one |
| Encoding.ListedFormEmitsIff | src/assembler.cpp:484-602 | A one-operand form the table lists is assembled if and only if its operand is a register or pair that has a number; every other listed form, immediates among them, is rejected |
| Encoding.BareEmissionIff | src/assembler.cpp:467-482 | Without operand, an instruction is silent if and only if the table does not know it and rejected if and only if the table lists other forms only; both, and what emits, as lists of types |
| Encoding.OneOperandEmissionIff | src/assembler.cpp:484-602 | With one operand it emits if and only if the table lists the form and the register or pair has a number; otherwise it is rejected, never silent |
| Encoding.DecodableRoundTrip | include/assembler.hpp:23-77 | Decoding the byte of a bare opcode, an accumulator operation on a register, an operation on a register pair or `inc d` gives back the instruction |
| Encoding.CodeDecodes | src/assembler.cpp:133-235 | The bytes of a program of any length decode to its emitting instructions in order, if the decoder covers those; what emits nothing does not matter |
| Encoding.EmittingCases | src/assembler.cpp:465-609 | Whatever emits a byte is covered by the decoder or an 8-bit increment or decrement |
| Encoding.ToldApartIff | src/assembler.cpp:180-187 | Of all instructions, an emitting one is alone with its byte if and only if it is neither `rlca` nor an 8-bit increment or decrement |
| Encoding.ParsedToldApartIff | src/assembler.cpp:86-111 | Leaving out the register `m`, which stands for (hl) and which the parser never makes, `inc d` is alone with its byte as well, and nothing else |
| Encoding.CodeDeterminesIff | src/assembler.cpp:90-235 | Among the programs the parser can make, the bytes of a program determine its emitting instructions if and only if each of them is alone with its byte |
| ElfModel.InitialInv | src/elf.cpp:87-247 | A new object has eight distinctly named sections, listed in order in the section name table, and consistent string and symbol tables |
| ElfModel.AddSectionOutcome | src/elf.cpp:249-268 | A section of a new name is appended as it is and its name added to the section name table, nothing else changing; a duplicate is refused |
| ElfModel.SetSectionOutcome | src/elf.cpp:335-354 | The current section is then the one of that name, the relocation index that of the section called rel and the name, or the number of sections; an unknown name is refused |
| ElfModel.AddSymbolOutcome | src/elf.cpp:362-369 | A symbol is refused if and only if a search of the symbol table would find its name |
| ElfModel.AddProgbitsOutcome | src/elf.cpp:405-412 | The bytes go to the end of the current section and nowhere else, if it holds program bytes; otherwise they are refused |
| ElfModel.AddSectionKeepsInv | src/elf.cpp:249-287 | Adding a section keeps names distinct and the name table a listing of exactly the section names |
| ElfModel.SetSectionKeepsInv | src/elf.cpp:335-354 | Selecting a section keeps the invariants, the current section in range |
| ElfModel.AddSymbolKeepsInv | src/elf.cpp:356-403 | Adding a symbol keeps the string table's running size, the name cache and the distinctness of symbol names and indices |
| ElfModel.AddSymbolDefines | src/elf.cpp:356-396 | The new symbol comes last, carries binding, type, visibility, value, size and current section, and its index leads to its name; only string and symbol tables change |
| ElfModel.AddStringKeepsInv | src/elf.cpp:398-403 | Adding a string keeps the running size and every symbol's name |
| ElfModel.AddProgbitsKeepsInv | src/elf.cpp:405-412 | Appending bytes keeps all of it |
| ElfModel.StepKeepsInv | src/elf.cpp:249-412 | Every operation keeps the invariants |
| ElfModel.EveryRunKeepsInv | src/elf.cpp:87-412 | They hold after every sequence of operations, failing ones included |
| ElfModel.SymbolCacheAgrees | include/elf.hpp:434-439 | After any run the name set answers exactly like a linear search through the symbols, no two symbols share a name or an index, and the running `sh_size` is the size of the strings less the leading null byte |
| Elf.Section.Size | include/elf.hpp:165-172 | The accumulating loop, through `int` and `size_t`, for each kind of section |
| Elf.Section.Write | include/elf.hpp:143-229 | Appends exactly the section's bytes to the stream |
| Elf.ELF.constructor | src/elf.cpp:87-247 | Builds the initial state through the public section-adding operation, on fresh sections |
| Elf.ELF.FindSection | src/elf.cpp:335-341 | The first section of that name |
| Elf.ELF.AddSection | src/elf.cpp:249-268 | Whole new state, or the error with the state unchanged; only the name table and the section list are written |
| Elf.ELF.SetSection | src/elf.cpp:335-354 | Whole new state, or the error with the state unchanged |
| Elf.ELF.AddString | src/elf.cpp:398-403 | Whole new state |
| Elf.ELF.AddSymbol | src/elf.cpp:356-396 | Whole new state, or the error with the state unchanged |
| Elf.ELF.AddProgbits | src/elf.cpp:405-412 | Whole new state, or the error with the state unchanged |
| Assembling.AssembleNodeKeepsInv | src/assembler.cpp:16-83 | Assembling any node keeps the object's invariants |
| Assembling.FailureIsPrefixConsistent | src/assembler.cpp:14-84 | If assembling throws at a node, the object is exactly the one the nodes before it made, and that node is the one that cannot be assembled there |
| Assembling.AssemblingRefines | src/assembler.cpp:14-84 | On success every program section holds its old data followed by the code of exactly the instructions whose latest directive names it, in program order; other sections' code and labels never change it, and labels only add their names |
| Assembling.LabelsBecomeSymbols | src/assembler.cpp:37-79 | On success the symbol table has grown by exactly one global untyped symbol of value 0 for each label, in program order, naming its string and the section current at the label |
| Assembling.SameEffectsSameObject | src/assembler.cpp:16-83 | Programs that agree node by node in what they emit, their directives and their labels leave the same object or fail at the same node with the same error |
| Assembling.SameCodeSameObject | src/assembler.cpp:14-84 | Two programs without labels that place the same code in every program section leave the same sections and file header |
| Assembling.AssemblingSucceedsIff | src/assembler.cpp:14-84 | Assembling succeeds if and only if every directive names an existing section, every label is new, every instruction is supported and every emitting one stands in a program section |
| Assembling.AssemblingStopsAtObjection | src/assembler.cpp:14-84 | Where assembling stops, everything before is acceptable and the error is what is wrong with that node in its place |
| Assembling.PairsDropped | src/assembler.cpp:606-607 | Taking all two-operand instructions out of a program changes neither the object nor the error |
| Assembler.Assembler.AssembleInstruction0 | src/assembler.cpp:467-482 | The table search emits exactly the byte specified, nothing for types not in the table, or the error with the object unchanged |
| Assembler.Assembler.AssembleInstruction1 | src/assembler.cpp:484-602 | Likewise for the loop over the formats of one operand; immediates encode, drop their bytes and end in the error |
| Assembler.Assembler.AssembleInstruction | src/assembler.cpp:465-609 | Likewise by operand count; two operands succeed and leave the object as it was |
| Assembler.Assembler.AssembleOne | src/assembler.cpp:18-82 | One node: the specified new object, or the error with the object unchanged |
| Assembler.Assembler.Assemble | src/assembler.cpp:14-84 | The loop leaves the object the specification gives, on failure the one reached before the failing node |
| Optimizing.FoldingKeepsEmission | src/assembler.cpp:719-739 | What an instruction emits is the same after evaluation |
| Optimizing.FoldingKeepsObject | include/assembler.hpp:82-85 | Wherever evaluation succeeds, the evaluated program assembles to the same object, or fails at the same node with the same error, as the program itself |
| Bytes.Swap32IsBigEndian | include/swap_helpers.hpp:14-17 | A swapped word in little-endian memory reads as the word in big-endian order |
| Bytes.SwappedShdrIsBigEndian | src/elf.cpp:71-85 | The memory of a swapped section header is its big-endian form, field by field |
| Bytes.SwappedEhdrIsBigEndian | src/elf.cpp:51-69 | Likewise for the file header |
| Bytes.ShdrRoundTrip | src/elf.cpp:71-85 | Decoding those bytes gives the section header back |
| Bytes.EhdrRoundTrip | src/elf.cpp:51-69 | Likewise for the file header, in 52 bytes |
| ElfImage.SizeIsLength | include/elf.hpp:137-229 | For every kind of section `size()` equals the number of bytes `write()` puts out, modulo 2^32; accumulating through an `int` does no harm |
| ElfImage.FileHeaderIsFinal | src/elf_writer.cpp:37-47 | Reading the start of the file gives the completed file header |
| ElfImage.NullEntryFirst | src/elf_writer.cpp:51-57 | The header table, found through the file header, starts with the null entry |
| ElfImage.EntryIsFinalShdr | src/elf_writer.cpp:59-79 | Entry k+1 of the table decodes to section k's completed header |
| ElfImage.LayoutHolds | src/elf_writer.cpp:59-84 | On a first write of fewer than 2^32 bytes, the offset and size of header k name exactly the window of the file that holds section k's bytes, and its other attributes are the section's |
| ElfImage.WindowsTile | src/elf_writer.cpp:49-84 | The windows follow each other without gap or overlap, from the end of the header table to the end of the file |
| ElfImage.StringInTable | include/elf.hpp:178-183 | Each NUL-free string of a table can be read back at the total size of the strings before it |
| ElfImage.SectionNamesResolve | src/elf_writer.cpp:41-77 | Through `e_shstrndx` and `sh_name`, a reader of the file finds for each header precisely that section's name |
| ElfImage.AnyRunIsLaidOut | src/elf_writer.cpp:37-84 | Windows and names are right for every object any sequence of operations can build |
| ElfImage.ShnumMissesLast | src/elf_writer.cpp:40 | `e_shnum` counts the sections without the null entry, while the last header stands at that very index |
| ElfImage.SecondWriteLosesNames | src/elf_writer.cpp:41-74 | After a write, a second write finds no string table if and only if no section type is the byte-reversed string-table type; then `e_shstrndx` points behind the table |
| FileFormat.FileHeaderFields | src/elf_writer.cpp:38-47 | The fields of the file header are these bytes of the file, most significant first |
| FileFormat.HeaderFields | src/elf_writer.cpp:66-75 | The fields of a section header are these ten words of the file, most significant byte first |
| FileFormat.CompiledFileHeader | src/elf.cpp:87-102 | The identification, type, version, sizes and counts at the start of every compiled file, in numbers |
| FileFormat.CompiledSectionHeader | src/elf.cpp:104-247 | The type, flags, entry size and name of each of its eight sections, in numbers and words, the remaining attributes being zero |
| FileFormat.NullHeaderIsZero | src/elf_writer.cpp:52-57 | The forty bytes behind the file header are zero |
| FileFormat.SymbolsReadBack | include/elf.hpp:224-229 | Symbol i of any reachable object stands at 16 i in the window of symtab, field by field in host order |
| FileFormat.NullSymbolFirst | include/elf.hpp:194-202 | The first symbol is all zero |
| FileFormat.CharactersAreBytes | include/elf.hpp:178-183 | A character of one byte is written as that byte |
| ElfWriter.ELFWriter.FindStrtab | src/elf_writer.cpp:41-43 | The first section marked as a string table |
| ElfWriter.ELFWriter.WriteFileHeader | src/elf_writer.cpp:38-47 | Completes and swaps the stored header in place and writes its big-endian form |
| ElfWriter.ELFWriter.WriteSectionHeaders | src/elf_writer.cpp:49-79 | The running 32-bit name index and 64-bit offset give every header its specified name, offset and size; stored headers end up swapped |
| ElfWriter.ELFWriter.WriteBodies | src/elf_writer.cpp:80-84 | Appends every section's bytes in order |
| ElfWriter.ELFWriter.Write | src/elf_writer.cpp:20-85 | The two passes together write the file image, whatever the object, and change nothing but the stored headers |
| EndToEnd.ParseSource | src/main.cpp:89-98 | Tokenizer and parser objects together compute the textual front end |
| EndToEnd.BuildObject | src/main.cpp:103-108 | Assembler, object and writer together produce the image of the assembled object |
| EndToEnd.CompileSource | src/main.cpp:89-108 | The whole pipeline |
| EndToEnd.AssembledDefaults | src/main.cpp:103-105 | In the assembled object each default section keeps its place and name, and each program section is exactly its code |
| EndToEnd.FindDefault | src/elf.cpp:249-268 | Searching the file's header table by name finds each program section at its own entry, within `e_shnum` |
| EndToEnd.CompilesIff | src/main.cpp:89-108 | Text compiles if and only if it parses and every node is acceptable in its place |
| EndToEnd.CompileErrorIs | src/main.cpp:89-108 | Text that parses but does not compile fails with what is wrong with the first node that is not acceptable |
| EndToEnd.PairLinesDropped | src/main.cpp:89-108 | Taking the two-operand lines out of a text changes neither its file nor its error |
| EndToEnd.CompiledSectionsHoldTheirCode | src/main.cpp:89-108 | For every text that compiles, each program section, looked up by name in the bytes of the file, holds exactly the code of the instructions the text places in it |
| EndToEnd.CompiledSectionsDecode | src/main.cpp:89-108 | From the bytes alone the emitting instructions of a section come back in order, if the decoder covers each; instructions that emit nothing are allowed and do not show |
| Recovery.SameFileIff | src/main.cpp:89-108 | Two texts that compile give the same file if and only if they put the same code into each of the five program sections |
| Recovery.FileDeterminesIff | src/main.cpp:89-108 | The file determines the emitting instructions of a section, among all texts that compile to it, if and only if each of them is alone with its byte among parsed instructions; otherwise another text with another instruction gives the same file |

## Left out

- Options, files, `stderr` and exception texts of src/main.cpp; the input is the sequence of its lines, as `getline` gives them.
- src/elf_reader.cpp: it reads headers in host order and prints them; a big-endian reading of the file, independent of it, takes its place.
- Relocation sections (`relocatable` true): never requested by the assembler.
- Conformance of `st_name` and `st_shndx` to the ABI: the code stores a vector index and an index without the null entry, and writes symbols in host order. The code's own indexing is what is proved.
- Unused encoders (`InstructionRI8`, `InstructionRR`, `InstructionDI16`, `InstructionFI8`) and `InstructionA`, which no format reaches; `ProgramSection::append`; the pointer overload of `add_progbits`; `isMaybeSection`; visitors.
- The opcodes computed in front of an immediate: the code drops them unread, so nothing is stated of their values.
- Sections are one class whose contents say which kind it is, rather than a hierarchy; syntax trees are values rather than shared pointers.
- The inner loop of `tokenize` and the three parts of `write` are methods of their own.
- Instruction2 operands are evaluated left first; C++ leaves the order open, and it shows only in which of two errors comes out.
- A `char` above 255 has no counterpart: characters reach the file modulo 256.
- SymbolCacheAgrees: says nothing of names and indices once there are more than 2^32 strings, because the 32-bit name index then wraps.
- LayoutHolds: for files under 2^32 bytes, beyond which the header fields cannot hold offsets; so are all results that read a file back.
- SectionNamesResolve: for names without a NUL, since the table is NUL-terminated; like LayoutHolds it is about a first write.
- AddSection: the method's contract gives the new state but does not repeat the object's invariant, which AddSectionKeepsInv gives for that state.
