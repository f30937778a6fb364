// Whole programs as source text: printing, tokenizing and parsing composed.
module SourceText {
  import opened Wrappers
  import opened CharUtils
  import opened Lexer
  import opened Tokenizer
  import opened Ast
  import opened Grammar
  import opened Printer

  // ---------- What a line of source can say ----------

  function PrintOperand(n: Node): seq<string> {
    match n
    case Register(c) => [[c]]
    case DRegister(c, d) => [[c, d]]
    case _ => Print(n)
  }

  // An operand the parser can produce: a register, or an expression that does not start with a
  // register name, nor with a label spelled like the end-of-line mark.
  predicate IsOperand(n: Node) {
    if n.Register? then IsRegister([n.reg])
    else if n.DRegister? then IsDRegister([n.reg1, n.reg2])
    else
      && IsSum(n)
      && Print(n) != []
      && StartsExpression(Print(n)[0])
  }

  predicate StartsExpression(tok: string) {
    !IsRegister(tok) && !IsDRegister(tok) && !IsNewline(tok)
  }

  predicate HasArity(t: InstructionType, count: nat) {
    match FindInstruction(Lexeme(t))
    case Some(props) => count == props.args1 || count == props.args2
    case None => false
  }

  predicate IsSourceLine(n: Node) {
    match n
    case Directive(dtype, args) =>
      dtype == SECTION && |args| == 1 && IsToken(args[0]) && !IsNewline(args[0])
    case Instruction0(t) => Lexeme(t) != "" && HasArity(t, 0)
    case Instruction1(t, operand) => Lexeme(t) != "" && HasArity(t, 1) && IsOperand(operand)
    case Instruction2(t, left, right) =>
      Lexeme(t) != "" && HasArity(t, 2) && IsOperand(left) && IsOperand(right)
    case _ => false
  }

  predicate IsSource(nodes: seq<Node>) {
    forall n | n in nodes :: IsSourceLine(n)
  }

  function PrintLine(n: Node): seq<string> {
    match n
    case Directive(_, args) => [".section"] + args
    case Instruction0(t) => [Lexeme(t)]
    case Instruction1(t, operand) => [Lexeme(t)] + PrintOperand(operand)
    case Instruction2(t, left, right) => [Lexeme(t)] + PrintOperand(left) + [","] + PrintOperand(right)
    case _ => []
  }

  function PrintProgram(nodes: seq<Node>): seq<string> {
    if nodes == [] then [EOF] else PrintLine(nodes[0]) + [EOL] + PrintProgram(nodes[1..])
  }

  function PrintText(nodes: seq<Node>): seq<string> {
    if nodes == [] then [] else [Spaced(PrintLine(nodes[0]))] + PrintText(nodes[1..])
  }

  datatype SourceError = Lexical(exception: TokenizerException) | Syntactic(error: ParseError)

  function ParseText(lines: seq<string>): Result<Node, SourceError> {
    match TokenizeLines(lines, 0)
    case Failure(e) => Failure(Lexical(e))
    case Success(ts) =>
      match Program(ts)
      case Failure(e) => Failure(Syntactic(e))
      case Success(root) => Success(root)
  }

  // ---------- Reading a printed line ----------

  predicate IsLowerWord(tok: string) {
    tok != "" && forall k | 0 <= k < |tok| :: 'a' <= tok[k] <= 'z'
  }

  lemma AluLexemeIsLower(t: InstructionType)
    requires IsAluType(t)
    ensures IsLowerWord(Lexeme(t))
  {
  }

  lemma OtherLexemeIsLower(t: InstructionType)
    requires Lexeme(t) != "" && !IsAluType(t)
    ensures IsLowerWord(Lexeme(t))
  {
  }

  // Instruction words are lower-case, so they are neither directives nor line marks.
  lemma LexemeIsWord(t: InstructionType)
    requires Lexeme(t) != ""
    ensures IsWord(Lexeme(t)) && 'a' <= Lexeme(t)[0] <= 'z'
  {
    hide Lexeme;
    if IsAluType(t) {
      AluLexemeIsLower(t);
    } else {
      OtherLexemeIsLower(t);
    }
  }

  // Any expression tree over valid labels and operators, whatever its shape.
  predicate IsTree(e: Node) {
    match e
    case Number(_) => true
    case Label(name) => IsLabel(name)
    case UnaryOp(NEG, operand) => IsTree(operand)
    case BinaryOp(op, left, right) => op != INVALID_BINARY && IsTree(left) && IsTree(right)
    case _ => false
  }

  lemma {:induction false} ShapedIsTree(e: Node)
    requires IsSum(e) || IsTerm(e) || IsUnaryTree(e)
    ensures IsTree(e)
    decreases e
  {
    match e {
      case UnaryOp(_, operand) =>
        ShapedIsTree(operand);
      case BinaryOp(_, left, right) =>
        ShapedIsTree(left);
        ShapedIsTree(right);
      case _ =>
    }
  }

  lemma {:induction false} TreePrintsTokens(e: Node)
    requires IsTree(e)
    ensures Print(e) != [] && !IsComma(Print(e)[0])
    ensures forall t | t in Print(e) :: IsToken(t)
    decreases e
  {
    match e {
      case Number(value) =>
        DigitsRead(value);
        assert IsWord(Digits(value));
      case Label(name) =>
        assert IsWord(name);
      case UnaryOp(_, operand) =>
        TreePrintsTokens(operand);
      case BinaryOp(op, left, right) =>
        TreePrintsTokens(left);
        TreePrintsTokens(right);
        assert IsToken(Symbol(op));
    }
  }

  predicate IsRegisterNode(n: Node) {
    n.Register? || n.DRegister?
  }

  // A register ends with its name; an expression, where no operator follows.
  lemma OperandReads(ts: seq<string>, p: nat, n: Node)
    requires IsOperand(n) && At(ts, p, PrintOperand(n))
    requires var follower := Peek(ts, p + |PrintOperand(n)|);
      IsRegisterNode(n) || (!IsAddition(follower) && !IsMultiplication(follower))
    ensures Operand(ts, p) == Parsed(n, p + |PrintOperand(n)|)
    ensures p < |ts| && !IsNewline(ts[p]) && !IsComma(ts[p])
  {
    hide Addition, IsSum, IsTerm, IsUnaryTree, Print, IsTree;
    if n.Register? {
      AtOne(ts, p, [n.reg]);
    } else if n.DRegister? {
      AtOne(ts, p, [n.reg1, n.reg2]);
    } else {
      ShapedIsTree(n);
      TreePrintsTokens(n);
      AdditionInvertsPrint(ts, p, n);
      assert ts[p] == Print(n)[0];
    }
  }

  // One turn of the operand loop.
  lemma OperandTaken(ts: seq<string>, acc: seq<Node>, p: nat, n: Node)
    requires IsOperand(n) && At(ts, p, PrintOperand(n)) && |acc| < 3
    requires var follower := Peek(ts, p + |PrintOperand(n)|);
      IsRegisterNode(n) || (!IsAddition(follower) && !IsMultiplication(follower))
    ensures p + |PrintOperand(n)| <= |ts|
    ensures OperandLoop(ts, acc, p) == OperandLoop(ts, acc + [n], p + |PrintOperand(n)|)
  {
    hide Operand, IsOperand, PrintOperand;
    OperandReads(ts, p, n);
  }

  function CommaRun(n: nat): (r: seq<string>)
    ensures |r| == n
  {
    seq(n, _ => ",")
  }

  // A run of commas in an operand list might as well not be there.
  lemma {:induction false} CommasSkipped(ts: seq<string>, acc: seq<Node>, p: nat, n: nat)
    requires At(ts, p, CommaRun(n)) && |acc| < 3
    ensures OperandLoop(ts, acc, p) == OperandLoop(ts, acc, p + n)
    decreases n
  {
    hide Operand, At;
    if n > 0 {
      assert CommaRun(n) == [","] + CommaRun(n - 1);
      AtSplit(ts, p, [","], CommaRun(n - 1));
      AtOne(ts, p, ",");
      CommasSkipped(ts, acc, p + 1, n - 1);
    }
  }

  lemma {:induction false} TreeStarts(e: Node)
    requires IsTree(e)
    ensures Print(e) != [] && !IsMultiplication(Print(e)[0]) && Print(e)[0] != "+"
    decreases e
  {
    match e {
      case Number(value) =>
        DigitsRead(value);
      case Label(name) =>
      case UnaryOp(_, operand) =>
      case BinaryOp(_, left, _) =>
        TreeStarts(left);
    }
  }

  lemma OperandStarts(n: Node)
    requires IsOperand(n)
    ensures PrintOperand(n) != []
    ensures PrintOperand(n)[0] != "-" ==>
              !IsAddition(PrintOperand(n)[0]) && !IsMultiplication(PrintOperand(n)[0])
  {
    hide IsSum, IsTerm, IsUnaryTree, IsTree, Print;
    if !IsRegisterNode(n) {
      ShapedIsTree(n);
      TreeStarts(n);
    }
  }

  // Two operands stay two if a comma stands between them, if the first is a register, or if
  // the second does not start with a minus sign.
  predicate KeptApart(left: Node, right: Node, commas: nat) {
    commas > 0 || IsRegisterNode(left) || (PrintOperand(right) != [] && PrintOperand(right)[0] != "-")
  }

  // A term without the minus sign it starts with.
  function DropMinus(e: Node): Node {
    match e
    case UnaryOp(_, operand) => operand
    case BinaryOp(op, left, right) => BinaryOp(op, DropMinus(left), right)
    case _ => e
  }

  // What `left` followed by `right` means if `right` starts with a minus sign: a difference.
  function RunTogether(left: Node, right: Node): Node {
    if right.BinaryOp? && right.bop in {PLUS, MINUS} then
      BinaryOp(right.bop, RunTogether(left, right.left), right.right)
    else
      BinaryOp(MINUS, left, DropMinus(right))
  }

  lemma UnaryDropMinus(e: Node)
    requires IsUnaryTree(e) && Print(e) != [] && Print(e)[0] == "-"
    ensures e.UnaryOp? && IsUnaryTree(e.operand) && Print(e) == ["-"] + Print(e.operand)
  {
    if e.Number? {
      DigitsRead(e.value);
    }
  }

  lemma {:induction false} DropMinusPrints(e: Node)
    requires IsTerm(e) && Print(e) != [] && Print(e)[0] == "-"
    ensures IsTerm(DropMinus(e)) && Print(e) == ["-"] + Print(DropMinus(e))
    decreases e
  {
    hide Print, IsUnaryTree, IsTree;
    if e.BinaryOp? && e.bop in {MULT, DIV} {
      SumPrints(e);
      ShapedIsTree(e.left);
      TreeStarts(e.left);
      DropMinusPrints(e.left);
      SumPrints(DropMinus(e));
    } else {
      UnaryDropMinus(e);
      UnaryTreeIsNoSum(e.operand);
    }
  }

  lemma UnaryTreeIsNoSum(e: Node)
    requires IsUnaryTree(e)
    ensures !e.BinaryOp?
  {
  }

  lemma {:induction false} RunTogetherPrints(left: Node, right: Node)
    requires IsSum(left) && IsSum(right) && Print(right) != [] && Print(right)[0] == "-"
    ensures IsSum(RunTogether(left, right)) && Print(RunTogether(left, right)) == Print(left) + Print(right)
    decreases right
  {
    hide IsTerm, IsUnaryTree, DropMinus, Print;
    if right.BinaryOp? && right.bop in {PLUS, MINUS} {
      SumPrints(right);
      ShapedIsTree(right.left);
      TreeStarts(right.left);
      RunTogetherPrints(left, right.left);
      SumPrints(RunTogether(left, right));
      assert Print(left) + Print(right)
          == Print(left) + Print(right.left) + [Symbol(right.bop)] + Print(right.right);
    } else {
      DropMinusPrints(right);
      SumPrints(RunTogether(left, right));
      assert Print(left) + ["-"] + Print(DropMinus(right)) == Print(left) + Print(right);
    }
  }

  lemma SumPrints(e: Node)
    requires e.BinaryOp?
    ensures Print(e) == Print(e.left) + [Symbol(e.bop)] + Print(e.right)
  {
  }

  lemma RunTogetherIsOperand(left: Node, right: Node)
    requires IsOperand(left) && IsOperand(right) && !KeptApart(left, right, 0)
    ensures IsOperand(RunTogether(left, right)) && !IsRegisterNode(RunTogether(left, right))
    ensures PrintOperand(RunTogether(left, right)) == PrintOperand(left) + PrintOperand(right)
  {
    hide IsSum, IsTerm, IsUnaryTree, Print, DropMinus;
    OperandStarts(right);
    RunTogetherPrints(left, right);
  }

  // Two operands with any number of commas before, between and behind them: what the parser
  // makes of them, and exactly when it is those two.
  lemma TwoOperandsRead(ts: seq<string>, p: nat, left: Node, right: Node, i: nat, j: nat, k: nat)
    requires IsOperand(left) && IsOperand(right)
    requires At(ts, p, CommaRun(i) + PrintOperand(left) + CommaRun(j) + PrintOperand(right) + CommaRun(k))
    requires Peek(ts, p + i + |PrintOperand(left)| + j + |PrintOperand(right)| + k) == EOL
    ensures var end := p + i + |PrintOperand(left)| + j + |PrintOperand(right)| + k;
      && OperandLoop(ts, [], p)
         == Listed(if KeptApart(left, right, j) then [left, right] else [RunTogether(left, right)], end)
      && (OperandLoop(ts, [], p) == Listed([left, right], end) <==> KeptApart(left, right, j))
  {
    hide IsOperand, PrintOperand, At, OperandLoop, CommaRun, RunTogether;
    var l, r := PrintOperand(left), PrintOperand(right);
    var p1 := p + i;
    var p2 := p1 + |l|;
    var p3 := p2 + j;
    var p4 := p3 + |r|;
    AtSplit(ts, p, CommaRun(i) + l + CommaRun(j) + r, CommaRun(k));
    AtSplit(ts, p, CommaRun(i) + l + CommaRun(j), r);
    AtSplit(ts, p, CommaRun(i) + l, CommaRun(j));
    AtSplit(ts, p, CommaRun(i), l);
    CommasSkipped(ts, [], p, i);
    AfterCommas(ts, p4, k);
    if KeptApart(left, right, j) {
      BetweenOperands(ts, p2, left, right, j);
      OperandTaken(ts, [], p1, left);
      CommasSkipped(ts, [left], p2, j);
      OperandTaken(ts, [left], p3, right);
      CommasSkipped(ts, [left, right], p4, k);
      assert [] + [left] == [left] && [left] + [right] == [left, right];
      ListEnds(ts, [left, right], p4 + k);
    } else {
      var n := RunTogether(left, right);
      RunTogetherIsOperand(left, right);
      AtSplit(ts, p1, l, r);
      OperandTaken(ts, [], p1, n);
      CommasSkipped(ts, [n], p4, k);
      assert [] + [n] == [n];
      ListEnds(ts, [n], p4 + k);
    }
  }

  lemma ListEnds(ts: seq<string>, acc: seq<Node>, p: nat)
    requires p <= |ts| && Peek(ts, p) == EOL
    ensures OperandLoop(ts, acc, p) == Listed(acc, p)
  {
  }

  lemma AfterCommas(ts: seq<string>, p: nat, n: nat)
    requires At(ts, p, CommaRun(n)) && Peek(ts, p + n) == EOL
    ensures p + n <= |ts| && !IsAddition(Peek(ts, p)) && !IsMultiplication(Peek(ts, p))
  {
    if n > 0 {
      assert ts[p] == CommaRun(n)[0];
    }
  }

  lemma BetweenOperands(ts: seq<string>, p: nat, left: Node, right: Node, n: nat)
    requires IsOperand(right) && KeptApart(left, right, n)
    requires At(ts, p, CommaRun(n)) && At(ts, p + n, PrintOperand(right))
    ensures IsRegisterNode(left) || (!IsAddition(Peek(ts, p)) && !IsMultiplication(Peek(ts, p)))
  {
    hide IsOperand, PrintOperand;
    OperandStarts(right);
    if n > 0 {
      assert ts[p] == CommaRun(n)[0];
    } else {
      assert ts[p] == PrintOperand(right)[0];
    }
  }

  lemma Instruction1Reads(ts: seq<string>, p: nat, n: Node)
    requires IsOperand(n) && At(ts, p, PrintOperand(n)) && Peek(ts, p + |PrintOperand(n)|) == EOL
    ensures OperandLoop(ts, [], p) == Listed([n], p + |PrintOperand(n)|)
  {
    hide IsOperand, PrintOperand, At, OperandLoop;
    OperandTaken(ts, [], p, n);
    assert [] + [n] == [n];
    ListEnds(ts, [n], p + |PrintOperand(n)|);
  }

  lemma Instruction2Reads(ts: seq<string>, p: nat, left: Node, right: Node)
    requires IsOperand(left) && IsOperand(right)
    requires At(ts, p, PrintOperand(left) + [","] + PrintOperand(right))
    requires Peek(ts, p + |PrintOperand(left)| + 1 + |PrintOperand(right)|) == EOL
    ensures OperandLoop(ts, [], p)
         == Listed([left, right], p + |PrintOperand(left)| + 1 + |PrintOperand(right)|)
  {
    hide IsOperand, PrintOperand, At, OperandLoop;
    assert CommaRun(0) + PrintOperand(left) + CommaRun(1) + PrintOperand(right) + CommaRun(0)
        == PrintOperand(left) + [","] + PrintOperand(right);
    TwoOperandsRead(ts, p, left, right, 0, 1, 0);
  }

  lemma InstructionReads(ts: seq<string>, p: nat, n: Node)
    requires IsSourceLine(n) && !n.Directive? && At(ts, p, PrintLine(n))
    requires Peek(ts, p + |PrintLine(n)|) == EOL
    ensures Instruction(ts, p) == Parsed(n, p + |PrintLine(n)|)
  {
    hide OperandLoop, IsOperand, PrintOperand, At, FindInstruction, Lexeme;
    LexemeFound(n.itype);
    var word := Lexeme(n.itype);
    match n {
      case Instruction0(t) =>
        AtOne(ts, p, word);
        NoOperands(ts, p + 1);
      case Instruction1(t, operand) =>
        AtSplit(ts, p, [word], PrintOperand(operand));
        AtOne(ts, p, word);
        Instruction1Reads(ts, p + 1, operand);
      case Instruction2(t, left, right) =>
        var operands := PrintOperand(left) + [","] + PrintOperand(right);
        assert PrintLine(n) == [word] + operands;
        AtSplit(ts, p, [word], operands);
        AtOne(ts, p, word);
        Instruction2Reads(ts, p + 1, left, right);
    }
  }

  lemma NoOperands(ts: seq<string>, p: nat)
    requires Peek(ts, p) == EOL
    ensures OperandLoop(ts, [], p) == Listed([], p)
  {
  }

  lemma DirectiveReads(ts: seq<string>, p: nat, n: Node)
    requires IsSourceLine(n) && n.Directive? && At(ts, p, PrintLine(n))
    ensures DirectiveLine(ts, p) == Parsed(n, p + |PrintLine(n)|)
  {
    assert PrintLine(n) == [".section"] + [n.operands[0]];
    AtSplit(ts, p, [".section"], [n.operands[0]]);
    AtOne(ts, p, ".section");
    AtOne(ts, p + 1, n.operands[0]);
    assert [] + [n.operands[0]] == n.operands;
    assert ArgumentLoop(ts, n.operands, 0, p + 2) == Taken(n.operands, p + 2);
  }

  // A printed line is read back whole, the cursor ending on its line mark.
  lemma LineReads(ts: seq<string>, p: nat, n: Node)
    requires IsSourceLine(n) && At(ts, p, PrintLine(n)) && Peek(ts, p + |PrintLine(n)|) == EOL
    ensures Line(ts, p) == Parsed(n, p + |PrintLine(n)|)
    ensures p < |ts| && !IsEof(ts[p]) && !IsNewline(ts[p])
  {
    LineStarts(ts, p, n);
    FirstWordDecides(n);
    hide At, DirectiveLine, Instruction, FindInstruction, Lexeme, PrintLine, IsSourceLine;
    hide IsDirective, IsLabel, IsInstruction, IsEof, IsNewline;
    if n.Directive? {
      DirectiveReads(ts, p, n);
    } else {
      InstructionReads(ts, p, n);
    }
  }

  // The first word of a printed line tells directives and instructions apart, and is no mark.
  lemma FirstWordDecides(n: Node)
    requires IsSourceLine(n)
    ensures IsDirective(".section") && !IsEof(".section") && !IsNewline(".section")
    ensures n.Directive? || n.Instruction0? || n.Instruction1? || n.Instruction2?
    ensures !n.Directive? ==>
              && IsInstruction(Lexeme(n.itype)) && !IsDirective(Lexeme(n.itype)) && !IsLabel(Lexeme(n.itype))
              && !IsEof(Lexeme(n.itype)) && !IsNewline(Lexeme(n.itype))
  {
    hide FindInstruction, Lexeme, IsOperand;
    if !n.Directive? {
      LexemeIsWord(n.itype);
      LexemeFound(n.itype);
    }
  }

  lemma LineStarts(ts: seq<string>, p: nat, n: Node)
    requires IsSourceLine(n) && At(ts, p, PrintLine(n))
    ensures p < |ts| && ts[p] == if n.Directive? then ".section" else Lexeme(n.itype)
  {
    hide Lexeme, FindInstruction, IsOperand;
    assert ts[p..p + |PrintLine(n)|][0] == PrintLine(n)[0];
  }

  // ---------- Reading a printed program ----------

  lemma {:induction false} ProgramReads(ts: seq<string>, acc: seq<Node>, p: nat, nodes: seq<Node>)
    requires IsSource(nodes) && At(ts, p, PrintProgram(nodes))
    ensures p + |PrintProgram(nodes)| <= |ts|
    ensures ProgramLoop(ts, acc, p) == Parsed(Root(acc + nodes), p + |PrintProgram(nodes)| - 1)
    decreases |nodes|
  {
    hide Line, At, IsSourceLine, PrintLine;
    if nodes == [] {
      AtOne(ts, p, EOF);
      assert acc + nodes == acc;
    } else {
      var n, rest := nodes[0], nodes[1..];
      assert n in nodes && forall m | m in rest :: m in nodes;
      var q := p + |PrintLine(n)|;
      AtSplit(ts, p, PrintLine(n) + [EOL], PrintProgram(rest));
      AtSplit(ts, p, PrintLine(n), [EOL]);
      AtOne(ts, q, EOL);
      LineReads(ts, p, n);
      ProgramReads(ts, acc + [n], q + 1, rest);
      assert acc + [n] + rest == acc + nodes;
      assert ProgramLoop(ts, acc + [n], q) == ProgramLoop(ts, acc + [n], q + 1);
    }
  }

  lemma LinePrintsTokens(n: Node)
    requires IsSourceLine(n)
    ensures forall t | t in PrintLine(n) :: IsToken(t)
  {
    hide IsOperand, PrintOperand, FindInstruction, Lexeme, HasArity, IsToken;
    TokenExamples();
    match n {
      case Directive(_, _) =>
      case Instruction0(t) =>
        WordIsToken(t);
      case Instruction1(t, operand) =>
        WordIsToken(t);
        OperandPrintsTokens(operand);
      case Instruction2(t, left, right) =>
        WordIsToken(t);
        OperandPrintsTokens(left);
        OperandPrintsTokens(right);
    }
  }

  lemma TokenExamples()
    ensures IsToken(".section") && IsToken(",") && IsToken(EOL) && IsToken(EOF)
  {
    assert IsWord(".section") && IsWord(EOL) && IsWord(EOF);
  }

  lemma WordIsToken(t: InstructionType)
    requires Lexeme(t) != ""
    ensures IsToken(Lexeme(t))
  {
    hide Lexeme;
    LexemeIsWord(t);
  }

  lemma OperandPrintsTokens(n: Node)
    requires IsOperand(n)
    ensures forall t | t in PrintOperand(n) :: IsToken(t)
  {
    hide IsSum, Print, IsTree;
    if n.Register? {
      assert IsWord([n.reg]);
    } else if n.DRegister? {
      assert IsWord([n.reg1, n.reg2]);
    } else {
      ShapedIsTree(n);
      TreePrintsTokens(n);
    }
  }

  lemma {:induction false} TextTokenizes(nodes: seq<Node>, lineno: nat)
    requires IsSource(nodes)
    ensures TokenizeLines(PrintText(nodes), lineno) == Success(PrintProgram(nodes))
    decreases |nodes|
  {
    hide IsSourceLine, PrintLine, IsToken;
    if nodes != [] {
      var n, rest := nodes[0], nodes[1..];
      assert n in nodes && forall m | m in rest :: m in nodes;
      LinePrintsTokens(n);
      SpacedRelexes(PrintLine(n));
      TextTokenizes(rest, lineno + 1);
      assert PrintText(nodes)[1..] == PrintText(rest);
    }
  }

  // ---------- Printing a parsed program ----------

  lemma OperandIsOperand(ts: seq<string>, p: nat)
    requires Lexed(ts) && Operand(ts, p).Parsed? && !IsNewline(Peek(ts, p))
    ensures IsOperand(Operand(ts, p).node)
  {
    hide Addition, Print, IsSum, Canonical, IsRegister, IsDRegister;
    if IsRegister(ts[p]) || IsDRegister(ts[p]) {
      RegisterIsOperand(ts[p]);
    } else {
      AdditionPrints(ts, p);
      var Parsed(e, q) := Addition(ts, p);
      assert Print(e)[0] == Canonical(ts[p]);
      CanonicalStarts(ts[p]);
      SumIsNoRegister(e);
    }
  }

  lemma RegisterIsOperand(tok: string)
    requires IsRegister(tok) || IsDRegister(tok)
    ensures IsRegister(tok) ==> |tok| == 1 && IsRegister([tok[0]])
    ensures !IsRegister(tok) ==> |tok| == 2 && IsDRegister([tok[0], tok[1]])
  {
    assert |tok| == 1 ==> [tok[0]] == tok;
    assert |tok| == 2 ==> [tok[0], tok[1]] == tok;
  }

  lemma CanonicalStarts(tok: string)
    requires StartsExpression(tok)
    ensures StartsExpression(Canonical(tok))
  {
    if IsNumber(tok) {
      DigitsRead(Decimal(tok) % 256);
      assert IsDigit(Canonical(tok)[0]);
    }
  }

  lemma SumIsNoRegister(e: Node)
    requires IsSum(e)
    ensures !e.Register? && !e.DRegister?
  {
  }

  lemma {:induction false} OperandLoopIsSource(ts: seq<string>, acc: seq<Node>, p: nat)
    requires Lexed(ts) && p <= |ts| && OperandLoop(ts, acc, p).Listed?
    requires |acc| <= 3 && forall n | n in acc :: IsOperand(n)
    ensures var Listed(operands, q) := OperandLoop(ts, acc, p);
      forall n | n in operands :: IsOperand(n)
    decreases |ts| - p
  {
    hide Operand, IsOperand;
    if !IsNewline(Peek(ts, p)) && |acc| < 3 {
      if IsComma(Peek(ts, p)) {
        OperandLoopIsSource(ts, acc, p + 1);
      } else {
        OperandIsOperand(ts, p);
        var Parsed(n, q) := Operand(ts, p);
        OperandLoopIsSource(ts, acc + [n], q);
      }
    }
  }

  function OperandCount(n: Node): nat {
    if n.Instruction1? then 1 else if n.Instruction2? then 2 else 0
  }

  lemma {:induction false} OperandLoopStops(ts: seq<string>, acc: seq<Node>, p: nat)
    requires p <= |ts| && OperandLoop(ts, acc, p).Listed? && |acc| <= 3
    ensures var Listed(operands, q) := OperandLoop(ts, acc, p);
      |operands| < 3 ==> IsNewline(Peek(ts, q))
    decreases |ts| - p
  {
    hide Operand;
    if !IsNewline(Peek(ts, p)) && |acc| < 3 {
      if IsComma(Peek(ts, p)) {
        OperandLoopStops(ts, acc, p + 1);
      } else {
        var Parsed(n, q) := Operand(ts, p);
        OperandLoopStops(ts, acc + [n], q);
      }
    }
  }

  // On any tokens, a successful `instruction()` stops exactly on a line mark, and takes as many
  // operands as the table allows for its word.
  lemma InstructionStopsAtNewline(ts: seq<string>, p: nat)
    requires Instruction(ts, p).Parsed?
    ensures var Parsed(n, q) := Instruction(ts, p);
      && q < |ts| && IsNewline(ts[q])
      && (n.Instruction0? || n.Instruction1? || n.Instruction2?)
      && Lexeme(n.itype) == ts[p] && HasArity(n.itype, OperandCount(n))
  {
    hide OperandLoop, FindInstruction, Lexeme;
    OperandLoopStops(ts, [], p + 1);
    FoundLexeme(ts[p]);
  }

  lemma InstructionIsSource(ts: seq<string>, p: nat)
    requires Lexed(ts) && Instruction(ts, p).Parsed?
    ensures var Parsed(n, q) := Instruction(ts, p);
      && IsSourceLine(n) && !n.Directive? && Lexeme(n.itype) == ts[p]
      && q < |ts| && IsNewline(ts[q])
  {
    hide OperandLoop, IsOperand, FindInstruction, Lexeme;
    InstructionStopsAtNewline(ts, p);
    OperandLoopIsSource(ts, [], p + 1);
    assert ts[p] != "" by {
      assert IsToken(ts[p]);
    }
  }

  lemma DirectiveIsSource(ts: seq<string>, p: nat)
    requires Lexed(ts) && DirectiveLine(ts, p).Parsed?
    ensures IsSourceLine(DirectiveLine(ts, p).node)
  {
    assert ArgumentLoop(ts, [], 1, p + 1).Taken?;
    assert [] + [ts[p + 1]] == [ts[p + 1]];
    assert ArgumentLoop(ts, [ts[p + 1]], 0, p + 2) == Taken([ts[p + 1]], p + 2);
  }

  lemma ColonIsNoToken()
    ensures !IsToken(":")
  {
    var colon := ":";
    assert !IsWordChar(colon[0]);
  }

  lemma LineIsSource(ts: seq<string>, p: nat)
    requires Lexed(ts) && Line(ts, p).Parsed?
    ensures IsSourceLine(Line(ts, p).node)
  {
    hide Instruction, DirectiveLine, IsSourceLine, IsLabel;
    if IsDirective(Peek(ts, p)) {
      DirectiveIsSource(ts, p);
    } else if IsLabel(Peek(ts, p)) && ts[p + 1] == ":" {
      ColonIsNoToken();
      assert false;
    } else {
      InstructionIsSource(ts, p);
    }
  }

  lemma {:induction false} ProgramIsSource(ts: seq<string>, acc: seq<Node>, p: nat)
    requires Lexed(ts) && IsSource(acc) && ProgramLoop(ts, acc, p).Parsed?
    ensures var Parsed(root, _) := ProgramLoop(ts, acc, p); root.Root? && IsSource(root.children)
    decreases |ts| - p
  {
    hide Line, IsSourceLine;
    if IsEof(Peek(ts, p)) {
    } else if IsNewline(Peek(ts, p)) {
      ProgramIsSource(ts, acc, p + 1);
    } else {
      LineIsSource(ts, p);
      var Parsed(n, q) := Line(ts, p);
      ProgramIsSource(ts, acc + [n], q);
    }
  }

  lemma {:induction false} TokenizedIsLexed(lines: seq<string>, lineno: nat)
    requires TokenizeLines(lines, lineno).Success?
    ensures Lexed(TokenizeLines(lines, lineno).value)
    decreases |lines|
  {
    hide IsToken;
    TokenExamples();
    if lines != [] {
      LexedTokensAreTokens(lines[0]);
      TokenizedIsLexed(lines[1..], lineno + 1);
    }
  }

  // ---------- Main results ----------

  // Printing to text, tokenizing and parsing gives a program back exactly when each of its
  // lines is one the source language can say.
  lemma TextRoundTrip(nodes: seq<Node>)
    ensures ParseText(PrintText(nodes)) == Success(Root(nodes)) <==> IsSource(nodes)
  {
    hide IsSourceLine, Lexed, ProgramLoop, TokenizeLines;
    if IsSource(nodes) {
      TextTokenizes(nodes, 0);
      var ts := PrintProgram(nodes);
      assert At(ts, 0, ts);
      ProgramReads(ts, [], 0, nodes);
      assert [] + nodes == nodes;
    }
    if ParseText(PrintText(nodes)) == Success(Root(nodes)) {
      ParsedIsSource(PrintText(nodes));
    }
  }

  lemma ParsedIsSource(lines: seq<string>)
    requires ParseText(lines).Success?
    ensures ParseText(lines).value.Root? && IsSource(ParseText(lines).value.children)
  {
    hide IsSourceLine, Lexed, ProgramLoop, TokenizeLines;
    TokenizedIsLexed(lines, 0);
    ProgramIsSource(TokenizeLines(lines, 0).value, [], 0);
  }

  // Whatever text parses can be printed in the canonical layout and parses to the same program.
  lemma ReparsePrinted(lines: seq<string>)
    requires ParseText(lines).Success?
    ensures ParseText(lines).value.Root?
    ensures ParseText(PrintText(ParseText(lines).value.children)) == ParseText(lines)
  {
    hide ParseText, IsSource;
    ParsedIsSource(lines);
    TextRoundTrip(ParseText(lines).value.children);
  }

  // ---------- Label lines ----------

  // label() takes the name and leaves the colon, with which no line can start.
  lemma LabelLineStops(ts: seq<string>, p: nat)
    requires IsLabel(Peek(ts, p)) && p + 1 < |ts| && ts[p + 1] == ":"
    ensures Line(ts, p) == Parsed(Label(ts[p]), p + 1)
    ensures Line(ts, p + 1).Failed?
  {
  }

  lemma LabelLineIsLabel(ts: seq<string>, p: nat)
    requires Line(ts, p).Parsed? && Line(ts, p).node.Label?
    ensures IsLabel(Peek(ts, p)) && p + 1 < |ts| && ts[p + 1] == ":"
  {
  }

  // The grammar promises "label -> LABEL ':'". The code never keeps that promise: with a label
  // definition at the start of a line no program parses, whatever the other tokens are.
  lemma LabelLineFails(ts: seq<string>, acc: seq<Node>, p: nat)
    requires !IsEof(Peek(ts, p)) && !IsNewline(Peek(ts, p))
    requires IsLabel(Peek(ts, p)) && p + 1 < |ts| && ts[p + 1] == ":"
    ensures ProgramLoop(ts, acc, p).Failed?
  {
    hide Line, IsLabel;
    LabelLineStops(ts, p);
    assert ProgramLoop(ts, acc + [Label(ts[p])], p + 1).Failed?;
  }

  // So a parsed program never holds a label, which is the only way to define a symbol.
  lemma {:induction false} LabelsNeverParse(ts: seq<string>, acc: seq<Node>, p: nat)
    requires forall n | n in acc :: !n.Label?
    requires ProgramLoop(ts, acc, p).Parsed?
    ensures var Parsed(root, _) := ProgramLoop(ts, acc, p);
      root.Root? && forall n | n in root.children :: !n.Label?
    decreases |ts| - p
  {
    hide Line, IsLabel;
    if IsEof(Peek(ts, p)) {
    } else if IsNewline(Peek(ts, p)) {
      LabelsNeverParse(ts, acc, p + 1);
    } else {
      var Parsed(n, q) := Line(ts, p);
      if n.Label? {
        LabelLineIsLabel(ts, p);
        LabelLineFails(ts, acc, p);
        assert false;
      } else {
        LabelsNeverParse(ts, acc + [n], q);
      }
    }
  }
}
