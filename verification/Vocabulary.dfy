// The words and literals of the source language, spelled out, and what the parser makes of them
// (the tables and token tests of src/parser.cpp).
module Vocabulary {
  import opened Wrappers
  import opened CharUtils
  import opened Lexer
  import opened Tokenizer
  import opened Ast
  import opened Grammar
  import opened Printer
  import opened SourceText
  import opened Encoding

  // ---------- Instructions ----------

  const ALU_WORDS: set<string> := {
    "add", "adc", "inc", "sub", "sbc", "and", "xor", "or", "cp", "dec", "rlc", "rlca", "rl", "rla", "rrc", "rrca",
    "rr", "rra", "daa", "scf", "cpl", "ccf"}

  const OTHER_WORDS: set<string> := {
    "ld", "ldi", "ldd", "push", "pop", "jr", "ret", "jp", "call", "rst", "nop", "stop", "halt", "di", "ei", "sla",
    "sra", "swap", "srl", "bit", "res", "set"}

  // The number of operands each instruction can be written with.
  predicate Takes(t: InstructionType, count: nat) {
    match count
    case 0 => t in {RLCA, RLA, RRCA, RRA, DAA, SCF, CPL, CCF, RET, JP, CALL, NOP, STOP, HALT, DI, EI}
    case 1 => t in {INC, SUB, AND, XOR, OR, CP, DEC, RLC, RL, RRC, RR, PUSH, POP, JR, RST, SLA, SRA, SWAP, SRL}
    case 2 => t in {ADD, ADC, SUB, SBC, LD, LDI, LDD, JR, BIT, RES, SET}
    case _ => false
  }

  predicate Allows(props: InstructionProps, count: nat) {
    count == props.args1 || count == props.args2
  }

  lemma AluArity(tok: string, count: nat)
    requires FindInstruction(tok).Some? && IsAluType(FindInstruction(tok).value.itype)
    ensures Allows(FindInstruction(tok).value, count) <==> Takes(FindInstruction(tok).value.itype, count)
  {
  }

  lemma OtherArity(tok: string, count: nat)
    requires FindInstruction(tok).Some? && !IsAluType(FindInstruction(tok).value.itype)
    ensures Allows(FindInstruction(tok).value, count) <==> Takes(FindInstruction(tok).value.itype, count)
  {
  }

  lemma WordlessTakesNothing(t: InstructionType, count: nat)
    requires Lexeme(t) == ""
    ensures !Takes(t, count) && FindInstruction("").None?
  {
  }

  lemma ArityIff(t: InstructionType, count: nat)
    ensures HasArity(t, count) <==> Takes(t, count)
  {
    hide FindInstruction, Lexeme, Takes;
    if Lexeme(t) == "" {
      WordlessTakesNothing(t, count);
    } else {
      LexemeFound(t);
      if IsAluType(t) {
        AluArity(Lexeme(t), count);
      } else {
        OtherArity(Lexeme(t), count);
      }
    }
  }

  lemma AluWordFound(tok: string)
    requires tok in ALU_WORDS
    ensures IsInstruction(tok)
  {
  }

  lemma OtherWordFound(tok: string)
    requires tok in OTHER_WORDS
    ensures IsInstruction(tok)
  {
  }

  lemma LexemeIsWordOfSet(t: InstructionType)
    ensures Lexeme(t) != "" ==> Lexeme(t) in ALU_WORDS || Lexeme(t) in OTHER_WORDS
  {
  }

  lemma MnemonicIff(tok: string)
    ensures IsInstruction(tok) <==> tok in ALU_WORDS || tok in OTHER_WORDS
  {
    hide FindInstruction, Lexeme, ALU_WORDS, OTHER_WORDS;
    if IsInstruction(tok) {
      FoundLexeme(tok);
      WordIsNotEmpty(tok);
      LexemeIsWordOfSet(FindInstruction(tok).value.itype);
    }
    if tok in ALU_WORDS {
      AluWordFound(tok);
    } else if tok in OTHER_WORDS {
      OtherWordFound(tok);
    }
  }

  lemma WordIsNotEmpty(tok: string)
    requires IsInstruction(tok)
    ensures tok != ""
  {
  }

  // The instruction a word and its operands make.
  function Built(t: InstructionType, operands: seq<Node>): Node
    requires |operands| <= 2
  {
    if |operands| == 0 then Instruction0(t)
    else if |operands| == 1 then Instruction1(t, operands[0])
    else Instruction2(t, operands[0], operands[1])
  }

  // A mnemonic accepts exactly the operand counts listed for it; no other word makes an
  // instruction.
  lemma MakeInstructionIff(word: string, operands: seq<Node>)
    ensures word !in ALU_WORDS && word !in OTHER_WORDS ==> MakeInstruction(word, operands) == Failure(ParserException)
    ensures word in ALU_WORDS || word in OTHER_WORDS ==>
              IsInstruction(word)
              && var t := FindInstruction(word).value.itype;
              && Lexeme(t) == word
              && MakeInstruction(word, operands)
                 == if Takes(t, |operands|) then Success(Built(t, operands)) else Failure(ParserException)
  {
    hide FindInstruction, Lexeme, ALU_WORDS, OTHER_WORDS;
    MnemonicIff(word);
    if IsInstruction(word) {
      FoundLexeme(word);
      ArityIff(FindInstruction(word).value.itype, |operands|);
      WordIsNotEmpty(word);
    }
  }

  // ---------- Emitting instructions can be written ----------

  lemma EmittingBare(t: InstructionType)
    requires EncodeNone(t).Some? && t != RETI
    ensures Takes(t, 0)
  {
  }

  lemma TakesNeedsWord(t: InstructionType, count: nat)
    requires Takes(t, count)
    ensures Lexeme(t) != ""
  {
    hide Lexeme;
    if Lexeme(t) == "" {
      WordlessTakesNothing(t, count);
    }
  }

  // Whatever emits a byte has a source line, but for `reti`, which has no word, and the register
  // that stands for (hl).
  lemma EmittingIsSource(n: Node)
    requires IsEmitting(n) && n != Instruction0(RETI) && !UsesStandIn(n)
    ensures ParseText(PrintText([n])) == Success(Root([n]))
  {
    EmittingIsSourceLine(n);
    TextRoundTrip([n]);
  }

  lemma EmittingIsSourceLine(n: Node)
    requires IsEmitting(n) && n != Instruction0(RETI) && !UsesStandIn(n)
    ensures IsSourceLine(n)
  {
    hide HasArity, EncodeNone, Formats, EncodeR, EncodeRA, EncodeD, Lexeme, Takes;
    var count := if n.Instruction0? then 0 else 1;
    ArityIff(n.itype, count);
    if n.Instruction0? {
      EmittingBare(n.itype);
    } else {
      EmittingOperand(n);
    }
    TakesNeedsWord(n.itype, count);
  }

  lemma EmittingOperand(n: Node)
    requires n.Instruction1? && IsEmitting(n) && !UsesStandIn(n)
    ensures Takes(n.itype, 1) && IsOperand(n.operand)
  {
    hide Or, Shl;
  }

  // ---------- Names and numbers ----------

  predicate IsLetter(c: char) {
    'a' <= c <= 'z' || 'A' <= c <= 'Z'
  }

  predicate IsName(tok: string) {
    && tok != "" && (IsLetter(tok[0]) || tok[0] == '_')
    && (forall i | 0 <= i < |tok| :: IsLetter(tok[i]) || '0' <= tok[i] <= '9' || tok[i] == '_')
    && tok !in ALU_WORDS && tok !in OTHER_WORDS
  }

  predicate IsDigits(tok: string) {
    tok != "" && forall i | 0 <= i < |tok| :: '0' <= tok[i] <= '9'
  }

  // A digit string is read as a decimal number, leading zeros and all.
  lemma DecimalReads(tok: string, c: char)
    requires (forall i | 0 <= i < |tok| :: '0' <= tok[i] <= '9') && '0' <= c <= '9'
    ensures Decimal("") == 0 && Decimal(tok + [c]) == 10 * Decimal(tok) + (c as int - 48)
  {
    var longer := tok + [c];
    assert longer[..|longer| - 1] == tok;
  }

  // Exactly which tokens are primary expressions, and which of them a literal too large for an
  // int.
  lemma PrimaryIff(ts: seq<string>, p: nat)
    ensures var tok := Peek(ts, p);
      Primary(ts, p) == if IsName(tok) then Parsed(Label(tok), p + 1)
                        else if !IsDigits(tok) then Failed(ParserException)
                        else if Decimal(tok) <= 2147483647 then Parsed(Number(Decimal(tok) % 256), p + 1)
                        else Failed(Undefined)
  {
    hide Decimal, IsInstruction, ALU_WORDS, OTHER_WORDS;
    MnemonicIff(Peek(ts, p));
    NameIsLabel(Peek(ts, p));
  }

  lemma NameIsLabel(tok: string)
    ensures IsName(tok) <==> IsLabel(tok)
  {
    hide IsInstruction, ALU_WORDS, OTHER_WORDS;
    MnemonicIff(tok);
  }

  // ---------- Operands ----------

  const REGISTER_NAMES: set<string> := {"a", "f", "b", "c", "d", "e", "h", "l"}

  const PAIR_NAMES: set<string> := {"af", "bc", "de", "hl", "sp", "pc"}

  // Where an operand starts, these names are registers and register pairs, and nothing else is.
  lemma OperandIff(ts: seq<string>, p: nat)
    ensures var tok := Peek(ts, p);
      && (tok in REGISTER_NAMES ==> Operand(ts, p) == Parsed(Register(tok[0]), p + 1))
      && (tok in PAIR_NAMES ==> Operand(ts, p) == Parsed(DRegister(tok[0], tok[1]), p + 1))
      && (tok !in REGISTER_NAMES && tok !in PAIR_NAMES ==>
            Operand(ts, p) == Addition(ts, p)
            && (Operand(ts, p).Parsed? ==> !IsRegisterNode(Operand(ts, p).node)))
  {
    hide Addition;
    if Addition(ts, p).Parsed? {
      AdditionMakesNoRegister(ts, p);
    }
  }

  lemma AdditionMakesNoRegister(ts: seq<string>, p: nat)
    requires Addition(ts, p).Parsed?
    ensures !IsRegisterNode(Addition(ts, p).node)
  {
    hide Primary, IsMultiplication, IsAddition;
    var Parsed(first, q) := Unary(ts, p);
    UnaryMakesNoRegister(ts, p);
    MultiplicationLoopMakesNoRegister(ts, first, q);
    var Parsed(left, r) := Multiplication(ts, p);
    AdditionLoopMakesNoRegister(ts, left, r);
  }

  lemma UnaryMakesNoRegister(ts: seq<string>, p: nat)
    requires Unary(ts, p).Parsed?
    ensures !IsRegisterNode(Unary(ts, p).node)
  {
  }

  lemma {:induction false} MultiplicationLoopMakesNoRegister(ts: seq<string>, left: Node, p: nat)
    requires p <= |ts| && !IsRegisterNode(left) && MultiplicationLoop(ts, left, p).Parsed?
    ensures !IsRegisterNode(MultiplicationLoop(ts, left, p).node)
    decreases |ts| - p
  {
    hide Unary;
    if IsMultiplication(Peek(ts, p)) {
      var op := if Peek(ts, p) == "*" then MULT else DIV;
      var Parsed(right, q) := Unary(ts, p + 1);
      MultiplicationLoopMakesNoRegister(ts, BinaryOp(op, left, right), q);
    }
  }

  lemma {:induction false} AdditionLoopMakesNoRegister(ts: seq<string>, left: Node, p: nat)
    requires p <= |ts| && !IsRegisterNode(left) && AdditionLoop(ts, left, p).Parsed?
    ensures !IsRegisterNode(AdditionLoop(ts, left, p).node)
    decreases |ts| - p
  {
    hide Multiplication;
    if IsAddition(Peek(ts, p)) {
      var op := if Peek(ts, p) == "+" then PLUS else MINUS;
      var Parsed(right, q) := Multiplication(ts, p + 1);
      AdditionLoopMakesNoRegister(ts, BinaryOp(op, left, right), q);
    }
  }

  // ---------- Lines ----------

  // The only directive is `.section` with one argument, any token but a line mark.
  lemma DirectiveIff(ts: seq<string>, p: nat, n: Node, q: nat)
    ensures DirectiveLine(ts, p) == Parsed(n, q) <==>
              && p + 1 < |ts| && ts[p] == ".section" && ts[p + 1] != "EOL"
              && n == Directive(SECTION, [ts[p + 1]]) && q == p + 2
  {
    if p + 1 < |ts| {
      assert [] + [ts[p + 1]] == [ts[p + 1]];
      assert ArgumentLoop(ts, [ts[p + 1]], 0, p + 2) == Taken([ts[p + 1]], p + 2);
    }
    if p < |ts| {
      assert ArgumentLoop(ts, [], 1, p + 1).Taken? ==> p + 1 < |ts|;
    }
  }

  // The first word of a line decides what it is.
  lemma LineIff(ts: seq<string>, p: nat)
    ensures var tok := Peek(ts, p);
      && (tok in ALU_WORDS || tok in OTHER_WORDS ==> Line(ts, p) == Instruction(ts, p))
      && (tok == ".section" ==> Line(ts, p) == DirectiveLine(ts, p))
      && (tok !in ALU_WORDS && tok !in OTHER_WORDS && tok != ".section" ==>
            (Line(ts, p).Parsed? <==> IsName(tok) && p + 1 < |ts| && ts[p + 1] == ":")
            && (Line(ts, p).Parsed? ==> Line(ts, p) == Parsed(Label(tok), p + 1)))
  {
    hide DirectiveLine, Instruction, IsInstruction, ALU_WORDS, OTHER_WORDS, IsName, IsLabel;
    var tok := Peek(ts, p);
    MnemonicIff(tok);
    NameIsLabel(tok);
    FirstCharacters(tok);
    if IsDirective(tok) && tok != ".section" {
      OtherDirectiveFails(ts, p);
    }
  }

  lemma FirstCharacters(tok: string)
    ensures IsLabel(tok) ==> !IsInstruction(tok) && !IsDirective(tok)
    ensures IsInstruction(tok) ==> !IsDirective(tok)
    ensures IsDirective(".section") && !IsInstruction(".section") && !IsLabel(".section")
  {
    hide FindInstruction;
    assert !IsInstruction(".section") by {
      MnemonicIff(".section");
    }
    if IsInstruction(tok) {
      MnemonicIff(tok);
    }
  }

  lemma OtherDirectiveFails(ts: seq<string>, p: nat)
    requires Peek(ts, p) != ".section"
    ensures DirectiveLine(ts, p).Failed?
  {
  }

  // ---------- Operators ----------

  lemma ReadsAs(ts: seq<string>, e: Node)
    requires IsSum(e) && Print(e) == ts
    ensures Addition(ts, 0) == Parsed(e, |ts|)
  {
    hide Addition, IsSum, Print;
    assert ts[0..|ts|] == ts;
    AdditionInvertsPrint(ts, 0, e);
  }

  // What the operators are called.
  predicate Names(sym: string, op: BinaryOpType) {
    || (sym == "+" && op == PLUS)
    || (sym == "-" && op == MINUS)
    || (sym == "*" && op == MULT)
    || (sym == "/" && op == DIV)
  }

  predicate BindsTighter(op: BinaryOpType, than: BinaryOpType) {
    op in {MULT, DIV} && than in {PLUS, MINUS}
  }

  // Operators mean what they are called; `*` and `/` bind tighter than `+` and `-`, operators
  // that bind alike group to the left, and the minus sign binds tightest.
  lemma OneOperatorReads(x: byte, y: byte, sym: string, op: BinaryOpType)
    requires Names(sym, op)
    ensures Addition([Digits(x), sym, Digits(y)], 0) == Parsed(BinaryOp(op, Number(x), Number(y)), 3)
    ensures Addition(["-", Digits(x), sym, Digits(y)], 0)
         == Parsed(BinaryOp(op, UnaryOp(NEG, Number(x)), Number(y)), 4)
  {
    hide Addition, Digits, Print, IsSum, IsTerm, IsUnaryTree;
    var l, m := Number(x), Number(y);
    LeafShape(l);
    LeafShape(m);
    LeafShape(UnaryOp(NEG, l));
    BinaryShape(op, l, m);
    BinaryShape(op, UnaryOp(NEG, l), m);
    LeafPrints(x);
    LeafPrints(y);
    SumPrints(BinaryOp(op, l, m));
    SumPrints(BinaryOp(op, UnaryOp(NEG, l), m));
    ReadsAs([Digits(x), sym, Digits(y)], BinaryOp(op, l, m));
    ReadsAs(["-", Digits(x), sym, Digits(y)], BinaryOp(op, UnaryOp(NEG, l), m));
  }

  lemma LeafShape(e: Node)
    requires e.Number? || (e.UnaryOp? && e.uop == NEG && e.operand.Number?)
    ensures IsUnaryTree(e) && IsTerm(e) && IsSum(e)
  {
  }

  lemma LeafPrints(x: byte)
    ensures Print(Number(x)) == [Digits(x)] && Print(UnaryOp(NEG, Number(x))) == ["-", Digits(x)]
  {
    hide Digits;
  }

  lemma BinaryShape(op: BinaryOpType, left: Node, right: Node)
    ensures op in {MULT, DIV} && IsTerm(left) && IsUnaryTree(right) ==>
              IsTerm(BinaryOp(op, left, right)) && IsSum(BinaryOp(op, left, right))
    ensures op in {PLUS, MINUS} && IsSum(left) && IsTerm(right) ==> IsSum(BinaryOp(op, left, right))
  {
  }

  lemma TwoOperatorsRead(x: byte, y: byte, z: byte, sym: string, op: BinaryOpType, sym': string, op': BinaryOpType)
    requires Names(sym, op) && Names(sym', op')
    ensures var l, m, n := Number(x), Number(y), Number(z);
      Addition([Digits(x), sym, Digits(y), sym', Digits(z)], 0)
      == Parsed(if BindsTighter(op', op) then BinaryOp(op, l, BinaryOp(op', m, n))
                else BinaryOp(op', BinaryOp(op, l, m), n), 5)
  {
    hide Addition, Digits, Print, IsSum;
    var ts := [Digits(x), sym, Digits(y), sym', Digits(z)];
    if BindsTighter(op', op) {
      TighterPrints(x, y, z, sym, op, sym', op');
      ReadsAs(ts, BinaryOp(op, Number(x), BinaryOp(op', Number(y), Number(z))));
    } else {
      GroupedPrints(x, y, z, sym, op, sym', op');
      ReadsAs(ts, BinaryOp(op', BinaryOp(op, Number(x), Number(y)), Number(z)));
    }
  }

  lemma TighterPrints(x: byte, y: byte, z: byte, sym: string, op: BinaryOpType, sym': string, op': BinaryOpType)
    requires Names(sym, op) && Names(sym', op') && BindsTighter(op', op)
    ensures var e := BinaryOp(op, Number(x), BinaryOp(op', Number(y), Number(z)));
      IsSum(e) && Print(e) == [Digits(x), sym, Digits(y), sym', Digits(z)]
  {
    hide Digits, Print, IsSum, IsTerm, IsUnaryTree;
    var l, m, n := Number(x), Number(y), Number(z);
    LeafShape(l);
    LeafShape(m);
    LeafShape(n);
    LeafPrints(x);
    LeafPrints(y);
    LeafPrints(z);
    BinaryShape(op', m, n);
    BinaryShape(op, l, BinaryOp(op', m, n));
    SumPrints(BinaryOp(op, l, BinaryOp(op', m, n)));
    SumPrints(BinaryOp(op', m, n));
  }

  lemma GroupedPrints(x: byte, y: byte, z: byte, sym: string, op: BinaryOpType, sym': string, op': BinaryOpType)
    requires Names(sym, op) && Names(sym', op') && !BindsTighter(op', op)
    ensures var e := BinaryOp(op', BinaryOp(op, Number(x), Number(y)), Number(z));
      IsSum(e) && Print(e) == [Digits(x), sym, Digits(y), sym', Digits(z)]
  {
    hide Digits, Print, IsSum, IsTerm, IsUnaryTree;
    var l, m, n := Number(x), Number(y), Number(z);
    LeafShape(l);
    LeafShape(m);
    LeafShape(n);
    LeafPrints(x);
    LeafPrints(y);
    LeafPrints(z);
    BinaryShape(op, l, m);
    BinaryShape(op', BinaryOp(op, l, m), n);
    SumPrints(BinaryOp(op', BinaryOp(op, l, m), n));
    SumPrints(BinaryOp(op, l, m));
  }

  // ---------- Too many operands ----------

  // A third operand ends the list and spoils the instruction, whatever follows it.
  lemma ThirdOperandFails(ts: seq<string>, p: nat, a: Node, b: Node, c: Node)
    requires p < |ts| && IsOperand(a) && IsOperand(b) && IsOperand(c)
    requires At(ts, p + 1, PrintOperand(a) + [","] + PrintOperand(b) + [","] + PrintOperand(c) + [","])
    ensures Instruction(ts, p) == Failed(ParserException)
  {
    hide IsOperand, PrintOperand, At, OperandLoop;
    var x, y, z := PrintOperand(a), PrintOperand(b), PrintOperand(c);
    var p1 := p + 1;
    var p2 := p1 + |x|;
    var p3 := p2 + 1 + |y|;
    var p4 := p3 + 1 + |z|;
    AtSplit(ts, p1, x + [","] + y + [","] + z, [","]);
    AtSplit(ts, p1, x + [","] + y + [","], z);
    AtSplit(ts, p1, x + [","] + y, [","]);
    AtSplit(ts, p1, x + [","], y);
    AtSplit(ts, p1, x, [","]);
    AtOne(ts, p2, ",");
    AtOne(ts, p3, ",");
    AtOne(ts, p4, ",");
    OperandTaken(ts, [], p1, a);
    CommaSkipped(ts, [] + [a], p2);
    OperandTaken(ts, [] + [a], p2 + 1, b);
    CommaSkipped(ts, [] + [a] + [b], p3);
    OperandTaken(ts, [] + [a] + [b], p3 + 1, c);
    ThreeListed(ts, [] + [a] + [b] + [c], p4);
    MakeInstructionIff(ts[p], [] + [a] + [b] + [c]);
  }

  lemma CommaSkipped(ts: seq<string>, acc: seq<Node>, p: nat)
    requires p < |ts| && ts[p] == "," && |acc| < 3
    ensures OperandLoop(ts, acc, p) == OperandLoop(ts, acc, p + 1)
  {
  }

  lemma ThreeListed(ts: seq<string>, acc: seq<Node>, p: nat)
    requires p <= |ts| && |acc| == 3
    ensures OperandLoop(ts, acc, p) == Listed(acc, p)
  {
  }

  // ---------- Literals in a line ----------

  lemma LiteralLineTokens(n: nat)
    ensures TokenizeLines(["ld a, " + Digits(n)], 0) == Success(["ld", "a", ",", Digits(n), "EOL", "EOF"])
  {
    hide Lex;
    DigitsRead(n);
    var d := Digits(n);
    assert IsWord(d) && d + "" == d;
    LexEmpty();
    LexOneToken(d, "");
    LexAfterSpace(d);
    LexOneToken(",", " " + d);
    assert "," + (" " + d) == ", " + d;
    LexOneToken("a", ", " + d);
    assert "a" + (", " + d) == "a, " + d;
    LexAfterSpace("a, " + d);
    assert " " + ("a, " + d) == " a, " + d;
    LexOneToken("ld", " a, " + d);
    assert "ld" + (" a, " + d) == "ld a, " + d;
    var line := "ld a, " + d;
    assert Lex(line) == Tokens(["ld", "a", ",", d]);
    assert [line][1..] == [] && TokenizeLines([], 1) == Success(["EOF"]);
    assert ["ld", "a", ",", d] + ["EOL"] + ["EOF"] == ["ld", "a", ",", d, "EOL", "EOF"];
  }

  lemma LiteralOperands(d: string)
    requires IsDigits(d)
    ensures var ts := ["ld", "a", ",", d, "EOL", "EOF"];
      OperandLoop(ts, [], 1) == if Decimal(d) <= 2147483647
                                then Listed([Register('a'), Number(Decimal(d) % 256)], 4) else Rejected(Undefined)
  {
    hide Decimal;
    var ts := ["ld", "a", ",", d, "EOL", "EOF"];
    PrimaryIff(ts, 3);
    OperandIff(ts, 1);
    hide Primary, IsName;
    assert d !in REGISTER_NAMES && d !in PAIR_NAMES && d != "EOL" && d != "," && d[0] != '-';
    assert [] + [Register('a')] == [Register('a')];
    assert OperandLoop(ts, [], 1) == OperandLoop(ts, [Register('a')], 2) == OperandLoop(ts, [Register('a')], 3);
    assert Operand(ts, 3) == Addition(ts, 3);
    assert Unary(ts, 3) == Primary(ts, 3);
    if Decimal(d) <= 2147483647 {
      var n := Number(Decimal(d) % 256);
      assert Addition(ts, 3) == Parsed(n, 4);
      assert [Register('a')] + [n] == [Register('a'), n];
      ListEnds(ts, [Register('a'), n], 4);
    }
  }

  // The line `ld a, n` is read for every n an int can hold, the literal modulo 256, and is
  // undefined for every other.
  lemma LiteralLineIff(n: nat)
    ensures ParseText(["ld a, " + Digits(n)])
         == if n <= 2147483647 then Success(Root([Instruction2(LD, Register('a'), Number(n % 256))]))
            else Failure(Syntactic(Undefined))
  {
    hide TokenizeLines, OperandLoop, Digits, Decimal, DirectiveLine, ALU_WORDS, OTHER_WORDS;
    DigitsRead(n);
    LiteralLineTokens(n);
    var ts := ["ld", "a", ",", Digits(n), "EOL", "EOF"];
    LiteralOperands(Digits(n));
    LdIsWord();
    LineIff(ts, 0);
    hide Line;
    if n <= 2147483647 {
      var line := Instruction2(LD, Register('a'), Number(n % 256));
      assert Line(ts, 0) == Parsed(line, 4);
      assert [] + [line] == [line];
      assert ProgramLoop(ts, [line], 4) == ProgramLoop(ts, [line], 5) == Parsed(Root([line]), 5);
    }
  }

  lemma LdIsWord()
    ensures "ld" in OTHER_WORDS && FindInstruction("ld") == Some(InstructionProps(LD, 2, 2))
  {
  }

  // ---------- Which error ----------

  predicate HasHugeLiteral(ts: seq<string>) {
    exists i | 0 <= i < |ts| :: IsDigits(ts[i]) && Decimal(ts[i]) > 2147483647
  }

  predicate Excused(error: ParseError, ts: seq<string>) {
    error == ParserException || (error == Undefined && HasHugeLiteral(ts))
  }

  lemma {:induction false} UnaryError(ts: seq<string>, p: nat)
    requires Unary(ts, p).Failed?
    ensures Excused(Unary(ts, p).error, ts)
    decreases |ts| - p
  {
    hide Primary, Decimal;
    if |Peek(ts, p)| >= 1 {
      if Peek(ts, p)[0] == '-' {
        UnaryError(ts, p + 1);
      } else {
        PrimaryError(ts, p);
      }
    }
  }

  lemma PrimaryError(ts: seq<string>, p: nat)
    requires Primary(ts, p).Failed?
    ensures Excused(Primary(ts, p).error, ts)
  {
    PrimaryIff(ts, p);
    hide Primary, Decimal;
  }

  lemma {:induction false} MultiplicationError(ts: seq<string>, left: Node, p: nat)
    requires p <= |ts| && MultiplicationLoop(ts, left, p).Failed?
    ensures Excused(MultiplicationLoop(ts, left, p).error, ts)
    decreases |ts| - p
  {
    hide Unary, HasHugeLiteral;
    match Unary(ts, p + 1) {
      case Failed(_) =>
        UnaryError(ts, p + 1);
      case Parsed(right, q) =>
        MultiplicationError(ts, BinaryOp(if Peek(ts, p) == "*" then MULT else DIV, left, right), q);
    }
  }

  lemma TermError(ts: seq<string>, p: nat)
    requires Multiplication(ts, p).Failed?
    ensures Excused(Multiplication(ts, p).error, ts)
  {
    hide Unary, HasHugeLiteral, MultiplicationLoop;
    match Unary(ts, p) {
      case Failed(_) =>
        UnaryError(ts, p);
      case Parsed(left, q) =>
        MultiplicationError(ts, left, q);
    }
  }

  lemma {:induction false} AdditionError(ts: seq<string>, left: Node, p: nat)
    requires p <= |ts| && AdditionLoop(ts, left, p).Failed?
    ensures Excused(AdditionLoop(ts, left, p).error, ts)
    decreases |ts| - p
  {
    hide Multiplication, HasHugeLiteral;
    match Multiplication(ts, p + 1) {
      case Failed(_) =>
        TermError(ts, p + 1);
      case Parsed(right, q) =>
        AdditionError(ts, BinaryOp(if Peek(ts, p) == "+" then PLUS else MINUS, left, right), q);
    }
  }

  lemma OperandError(ts: seq<string>, p: nat)
    requires Operand(ts, p).Failed?
    ensures Excused(Operand(ts, p).error, ts)
  {
    hide Multiplication, HasHugeLiteral, AdditionLoop;
    match Multiplication(ts, p) {
      case Failed(_) =>
        TermError(ts, p);
      case Parsed(left, q) =>
        AdditionError(ts, left, q);
    }
  }

  lemma {:induction false} OperandListError(ts: seq<string>, acc: seq<Node>, p: nat)
    requires p <= |ts| && OperandLoop(ts, acc, p).Rejected?
    ensures Excused(OperandLoop(ts, acc, p).cause, ts)
    decreases |ts| - p
  {
    hide Operand, HasHugeLiteral;
    if IsComma(Peek(ts, p)) {
      OperandListError(ts, acc, p + 1);
    } else {
      match Operand(ts, p) {
        case Failed(_) =>
          OperandError(ts, p);
        case Parsed(n, q) =>
          OperandListError(ts, acc + [n], q);
      }
    }
  }

  lemma LineError(ts: seq<string>, p: nat)
    requires p + 1 < |ts| && Line(ts, p).Failed?
    ensures Excused(Line(ts, p).error, ts)
  {
    hide OperandLoop, HasHugeLiteral, IsLabel, IsDirective, IsInstruction, FindInstruction;
    if OperandLoop(ts, [], p + 1).Rejected? {
      OperandListError(ts, [], p + 1);
    }
    assert [] + [ts[p + 1]] == [ts[p + 1]];
    assert p + 2 <= |ts| && ArgumentLoop(ts, [ts[p + 1]], 0, p + 2).Taken?;
  }

  // The end mark comes last, and behind a line mark if it is not alone.
  predicate EndsWithMarks(ts: seq<string>) {
    ts != [] && IsEof(ts[|ts| - 1]) && (|ts| >= 2 ==> IsNewline(ts[|ts| - 2]))
  }

  lemma LineLeavesEof(ts: seq<string>, p: nat)
    requires EndsWithMarks(ts) && p + 1 < |ts| && Line(ts, p).Parsed?
    ensures Line(ts, p).next < |ts|
  {
    hide Instruction, DirectiveLine, FindInstruction, IsLabel, IsDirective, IsInstruction;
    if Line(ts, p) == DirectiveLine(ts, p) {
      DirectiveIff(ts, p, Line(ts, p).node, Line(ts, p).next);
    } else if Line(ts, p) == Instruction(ts, p) {
      InstructionStopsAtNewline(ts, p);
    }
  }

  lemma {:induction false} ProgramError(ts: seq<string>, acc: seq<Node>, p: nat)
    requires p < |ts| && EndsWithMarks(ts) && ProgramLoop(ts, acc, p).Failed?
    ensures Excused(ProgramLoop(ts, acc, p).error, ts)
    decreases |ts| - p
  {
    hide Line, HasHugeLiteral;
    if IsNewline(Peek(ts, p)) {
      ProgramError(ts, acc, p + 1);
    } else {
      match Line(ts, p) {
        case Failed(_) =>
          LineError(ts, p);
        case Parsed(n, q) =>
          LineLeavesEof(ts, p);
          ProgramError(ts, acc + [n], q);
      }
    }
  }

  lemma {:induction false} TokenizedEndsWithMarks(lines: seq<string>, lineno: nat)
    requires TokenizeLines(lines, lineno).Success?
    ensures EndsWithMarks(TokenizeLines(lines, lineno).value)
    ensures lines != [] ==> |TokenizeLines(lines, lineno).value| >= 2
    decreases |lines|
  {
    hide Lex;
    if lines != [] {
      TokenizedEndsWithMarks(lines[1..], lineno + 1);
    }
  }

  // A text that tokenizes but does not parse fails with a parser exception, unless it holds a
  // literal too large for an int; the parser never reads past the end of its tokens.
  lemma TextErrors(lines: seq<string>)
    requires ParseText(lines).Failure? && ParseText(lines).error.Syntactic?
    ensures TokenizeLines(lines, 0).Success?
    ensures Excused(ParseText(lines).error.error, TokenizeLines(lines, 0).value)
  {
    hide TokenizeLines, ProgramLoop, Excused, HasHugeLiteral;
    TokenizedEndsWithMarks(lines, 0);
    ProgramError(TokenizeLines(lines, 0).value, [], 0);
  }
}
