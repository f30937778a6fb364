// The parser neither loses nor invents nor reorders tokens: what it makes of a program prints
// back to the tokens it has read, commas and line marks aside (src/parser.cpp).
module Conservation {
  import opened Wrappers
  import opened Lexer
  import opened Tokenizer
  import opened Ast
  import opened Grammar
  import opened Printer
  import opened SourceText
  import opened Vocabulary

  // The tokens without commas and line marks, numbers reduced modulo 256.
  function Words(ts: seq<string>): seq<string> {
    if ts == [] then []
    else (if IsComma(ts[0]) || IsNewline(ts[0]) then [] else [Canonical(ts[0])]) + Words(ts[1..])
  }

  lemma {:induction false} WordsConcat(a: seq<string>, b: seq<string>)
    ensures Words(a + b) == Words(a) + Words(b)
  {
    hide Canonical;
    if a == [] {
      assert a + b == b;
    } else {
      assert (a + b)[1..] == a[1..] + b;
      WordsConcat(a[1..], b);
    }
  }

  lemma WordsSlice(ts: seq<string>, p: nat, q: nat, r: nat)
    requires p <= q <= r <= |ts|
    ensures Words(ts[p..r]) == Words(ts[p..q]) + Words(ts[q..r])
  {
    hide Words;
    assert ts[p..r] == ts[p..q] + ts[q..r];
    WordsConcat(ts[p..q], ts[q..r]);
  }

  lemma WordsOne(tok: string)
    ensures Words([tok]) == if IsComma(tok) || IsNewline(tok) then [] else [Canonical(tok)]
  {
    hide Canonical;
    assert [tok][1..] == [] && Words([]) == [];
  }

  lemma CanonicalIsStable(tok: string)
    ensures Canonical(Canonical(tok)) == Canonical(tok)
    ensures IsComma(Canonical(tok)) <==> IsComma(tok)
    ensures IsNewline(Canonical(tok)) <==> IsNewline(tok)
  {
    if Canonical(tok) != tok {
      DigitsRead(Decimal(tok) % 256);
      hide Decimal, Digits;
    }
  }

  lemma {:induction false} WordsOfCanonicals(ts: seq<string>)
    ensures Words(Canonicals(ts)) == Words(ts)
  {
    hide Canonical;
    if ts != [] {
      CanonicalIsStable(ts[0]);
      WordsOfCanonicals(ts[1..]);
      assert Canonicals(ts)[1..] == Canonicals(ts[1..]);
    }
  }

  lemma OneToken(ts: seq<string>, p: nat)
    requires p < |ts|
    ensures ts[p..p + 1] == [ts[p]]
  {
  }

  lemma OperandConserves(ts: seq<string>, p: nat)
    requires Lexed(ts) && Operand(ts, p).Parsed?
    ensures var Parsed(n, q) := Operand(ts, p); Words(PrintOperand(n)) == Words(ts[p..q])
  {
    hide Addition, Words, Print, Canonicals, IsSum, IsRegister, IsDRegister;
    var Parsed(n, q) := Operand(ts, p);
    if IsRegister(ts[p]) || IsDRegister(ts[p]) {
      RegisterIsOperand(ts[p]);
      OneToken(ts, p);
      assert |ts[p]| == 1 ==> [ts[p][0]] == ts[p];
      assert |ts[p]| == 2 ==> [ts[p][0], ts[p][1]] == ts[p];
    } else {
      AdditionPrints(ts, p);
      SumIsNoRegister(n);
      WordsOfCanonicals(ts[p..q]);
    }
  }

  function PrintOperands(operands: seq<Node>): seq<string> {
    if operands == [] then [] else PrintOperand(operands[0]) + PrintOperands(operands[1..])
  }

  lemma {:induction false} OperandListConserves(ts: seq<string>, acc: seq<Node>, p: nat)
    requires Lexed(ts) && p <= |ts| && OperandLoop(ts, acc, p).Listed?
    ensures var Listed(operands, q) := OperandLoop(ts, acc, p);
      && acc <= operands
      && Words(PrintOperands(operands[|acc|..])) == Words(ts[p..q])
    decreases |ts| - p
  {
    hide Operand, PrintOperand, Words;
    var Listed(operands, end) := OperandLoop(ts, acc, p);
    if IsNewline(Peek(ts, p)) || |acc| >= 3 {
      assert operands[|acc|..] == [] && ts[p..p] == [];
    } else if IsComma(Peek(ts, p)) {
      OperandListConserves(ts, acc, p + 1);
      WordsSlice(ts, p, p + 1, end);
      OneToken(ts, p);
      WordsOne(ts[p]);
    } else {
      var Parsed(n, q) := Operand(ts, p);
      OperandConserves(ts, p);
      OperandListConserves(ts, acc + [n], q);
      WordsSlice(ts, p, q, end);
      var taken := operands[|acc|..];
      assert taken[0] == n && taken[1..] == operands[|acc + [n]|..];
      WordsConcat(PrintOperand(n), PrintOperands(taken[1..]));
    }
  }

  lemma NoOperandsPrint()
    ensures PrintOperands([]) == []
  {
  }

  lemma OneOperandPrints(n: Node)
    ensures PrintOperands([n]) == PrintOperand(n)
  {
    hide PrintOperand;
    assert [n][1..] == [];
  }

  lemma TwoOperandsPrint(n: Node, m: Node)
    ensures PrintOperands([n, m]) == PrintOperand(n) + PrintOperand(m)
  {
    hide PrintOperand;
    assert [n, m][1..] == [m];
    OneOperandPrints(m);
  }

  // A built instruction prints to its word and its operands.
  lemma BuiltPrints(word: string, operands: seq<Node>)
    requires MakeInstruction(word, operands).Success?
    ensures Words(PrintLine(MakeInstruction(word, operands).value)) == Words([word] + PrintOperands(operands))
  {
    hide FindInstruction, Lexeme, PrintOperand, Words, PrintOperands;
    FoundLexeme(word);
    match MakeInstruction(word, operands).value {
      case Instruction0(_) =>
        NoOperandsPrint();
        assert operands == [] && [word] + [] == [word];
      case Instruction1(_, n) =>
        assert operands == [n];
        OneOperandPrints(n);
      case Instruction2(_, n, m) =>
        assert operands == [n, m];
        TwoOperandsPrint(n, m);
        var l, r := PrintOperand(n), PrintOperand(m);
        WordsConcat([word] + l + [","], r);
        WordsConcat([word] + l, [","]);
        WordsConcat([word] + l, r);
        WordsOne(",");
        assert [word] + (l + r) == [word] + l + r;
        assert Words([word] + l) + [] == Words([word] + l);
    }
  }

  lemma InstructionConserves(ts: seq<string>, p: nat)
    requires Lexed(ts) && Instruction(ts, p).Parsed?
    ensures var Parsed(n, q) := Instruction(ts, p); Words(PrintLine(n)) == Words(ts[p..q])
  {
    hide OperandLoop, MakeInstruction, PrintLine, Words, PrintOperands;
    var Listed(operands, q) := OperandLoop(ts, [], p + 1);
    OperandListConserves(ts, [], p + 1);
    assert operands[0..] == operands;
    BuiltPrints(ts[p], operands);
    WordsSlice(ts, p, p + 1, q);
    OneToken(ts, p);
    WordsConcat([ts[p]], PrintOperands(operands));
  }

  lemma DirectiveConserves(ts: seq<string>, p: nat)
    requires DirectiveLine(ts, p).Parsed?
    ensures var Parsed(n, q) := DirectiveLine(ts, p); PrintLine(n) == ts[p..q]
  {
    var Parsed(n, q) := DirectiveLine(ts, p);
    DirectiveIff(ts, p, n, q);
    hide DirectiveLine;
    assert ts[p..p + 2] == [".section"] + [ts[p + 1]];
  }

  lemma LineConserves(ts: seq<string>, p: nat)
    requires Lexed(ts) && Line(ts, p).Parsed?
    ensures var Parsed(n, q) := Line(ts, p); Words(PrintLine(n)) == Words(ts[p..q])
  {
    hide Instruction, DirectiveLine, Words, IsLabel, IsDirective, IsInstruction, PrintLine;
    if IsDirective(Peek(ts, p)) {
      DirectiveConserves(ts, p);
    } else if IsLabel(Peek(ts, p)) && ts[p + 1] == ":" {
      ColonIsNoToken();
      assert false;
    } else {
      InstructionConserves(ts, p);
    }
  }

  function PrintLines(nodes: seq<Node>): seq<string> {
    if nodes == [] then [] else PrintLines(nodes[..|nodes| - 1]) + PrintLine(nodes[|nodes| - 1])
  }

  // Whatever parses prints back to the tokens read, up to the end mark.
  lemma {:induction false} ProgramConserves(ts: seq<string>, acc: seq<Node>, p: nat)
    requires Lexed(ts) && ProgramLoop(ts, acc, p).Parsed? && p <= |ts|
    requires Words(PrintLines(acc)) == Words(ts[..p])
    ensures var Parsed(root, q) := ProgramLoop(ts, acc, p);
      root.Root? && IsEof(Peek(ts, q)) && Words(PrintLines(root.children)) == Words(ts[..q])
    decreases |ts| - p
  {
    hide Line, PrintLine, Words;
    if IsEof(Peek(ts, p)) {
    } else if IsNewline(Peek(ts, p)) {
      WordsSlice(ts, 0, p, p + 1);
      OneToken(ts, p);
      WordsOne(ts[p]);
      assert ts[0..p] == ts[..p] && ts[0..p + 1] == ts[..p + 1];
      assert Words(ts[..p]) + [] == Words(ts[..p]);
      ProgramConserves(ts, acc, p + 1);
    } else {
      var Parsed(n, q) := Line(ts, p);
      LineConserves(ts, p);
      WordsSlice(ts, 0, p, q);
      assert ts[0..p] == ts[..p] && ts[0..q] == ts[..q];
      var longer := acc + [n];
      assert longer[..|longer| - 1] == acc;
      WordsConcat(PrintLines(acc), PrintLine(n));
      ProgramConserves(ts, longer, q);
    }
  }

  // From text: the words of the program are the words of its tokens up to an end mark.
  lemma TextConserves(lines: seq<string>) returns (q: nat)
    requires ParseText(lines).Success?
    ensures TokenizeLines(lines, 0).Success? && ParseText(lines).value.Root?
    ensures var ts := TokenizeLines(lines, 0).value;
      q < |ts| && ts[q] == "EOF" && Words(PrintLines(ParseText(lines).value.children)) == Words(ts[..q])
  {
    hide TokenizeLines, ProgramLoop, Words;
    var ts := TokenizeLines(lines, 0).value;
    TokenizedIsLexed(lines, 0);
    assert PrintLines([]) == [] && ts[..0] == [];
    ProgramConserves(ts, [], 0);
    q := ProgramLoop(ts, [], 0).next;
  }
}
