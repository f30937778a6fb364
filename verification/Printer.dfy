// Expression trees written back as tokens, and the proof that the expression productions and
// this printer are inverse to each other.
module Printer {
  import opened Wrappers
  import opened CharUtils
  import opened Lexer
  import opened Ast
  import opened Grammar

  function Digit(d: nat): char
    requires d < 10
  {
    ('0' as int + d) as char
  }

  function Digits(n: nat): string {
    if n < 10 then [Digit(n)] else Digits(n / 10) + [Digit(n % 10)]
  }

  lemma {:induction false} DigitsRead(n: nat)
    ensures IsNumber(Digits(n))
    ensures Decimal(Digits(n)) == n
  {
    if n >= 10 {
      DigitsRead(n / 10);
      assert Digits(n)[..|Digits(n)| - 1] == Digits(n / 10);
    } else {
      assert Decimal([]) == 0;
    }
  }

  // ---------- Grammar-shaped trees ----------

  // Without parentheses, only these trees can be written: negation binds tightest, then * and /,
  // then + and -, the binary operators grouping to the left.
  predicate IsUnaryTree(e: Node) {
    match e
    case Number(_) => true
    case Label(name) => IsLabel(name)
    case UnaryOp(NEG, operand) => IsUnaryTree(operand)
    case _ => false
  }

  predicate IsTerm(e: Node) {
    if e.BinaryOp? && e.bop in {MULT, DIV} then IsTerm(e.left) && IsUnaryTree(e.right) else IsUnaryTree(e)
  }

  predicate IsSum(e: Node) {
    if e.BinaryOp? && e.bop in {PLUS, MINUS} then IsSum(e.left) && IsTerm(e.right) else IsTerm(e)
  }

  function Symbol(op: BinaryOpType): string {
    match op
    case PLUS => "+"
    case MINUS => "-"
    case MULT => "*"
    case DIV => "/"
    case INVALID_BINARY => ""
  }

  function Print(e: Node): seq<string> {
    match e
    case Number(value) => [Digits(value)]
    case Label(name) => [name]
    case UnaryOp(_, operand) => ["-"] + Print(operand)
    case BinaryOp(op, left, right) => Print(left) + [Symbol(op)] + Print(right)
    case _ => []
  }

  predicate At(ts: seq<string>, p: nat, xs: seq<string>) {
    p + |xs| <= |ts| && ts[p..p + |xs|] == xs
  }

  lemma AtSplit(ts: seq<string>, p: nat, xs: seq<string>, ys: seq<string>)
    ensures At(ts, p, xs + ys) <==> At(ts, p, xs) && At(ts, p + |xs|, ys)
  {
    if p + |xs| + |ys| <= |ts| {
      assert ts[p..p + |xs + ys|] == ts[p..p + |xs|] + ts[p + |xs|..p + |xs| + |ys|];
      if At(ts, p, xs + ys) {
        assert (xs + ys)[..|xs|] == xs && (xs + ys)[|xs|..] == ys;
      }
    }
  }

  lemma AtOne(ts: seq<string>, p: nat, x: string)
    ensures At(ts, p, [x]) <==> p < |ts| && ts[p] == x
  {
    if p < |ts| {
      assert ts[p..p + 1] == [ts[p]];
    }
  }

  lemma BinaryAt(ts: seq<string>, p: nat, e: Node)
    requires e.BinaryOp? && At(ts, p, Print(e))
    ensures |Print(e)| == |Print(e.left)| + 1 + |Print(e.right)|
    ensures At(ts, p, Print(e.left))
    ensures var q := p + |Print(e.left)|;
      q < |ts| && ts[q] == Symbol(e.bop) && At(ts, q + 1, Print(e.right))
    ensures p + |Print(e)| <= |ts|
  {
    var op := Symbol(e.bop);
    AtSplit(ts, p, Print(e.left) + [op], Print(e.right));
    AtSplit(ts, p, Print(e.left), [op]);
    AtOne(ts, p + |Print(e.left)|, op);
  }

  // ---------- Parsing what was printed ----------

  lemma {:induction false} UnaryReads(ts: seq<string>, p: nat, e: Node)
    requires IsUnaryTree(e) && At(ts, p, Print(e))
    ensures Unary(ts, p) == Parsed(e, p + |Print(e)|)
    decreases e
  {
    hide At, IsInstruction, Decimal, Digits;
    match e {
      case Number(value) =>
        AtOne(ts, p, Digits(value));
        DigitsRead(value);
      case Label(name) =>
        AtOne(ts, p, name);
      case UnaryOp(_, operand) =>
        AtSplit(ts, p, ["-"], Print(operand));
        AtOne(ts, p, "-");
        UnaryReads(ts, p + 1, operand);
    }
  }

  lemma {:induction false} MultiplicationReads(ts: seq<string>, p: nat, e: Node)
    requires IsTerm(e) && At(ts, p, Print(e))
    ensures p + |Print(e)| <= |ts|
    ensures Multiplication(ts, p) == MultiplicationLoop(ts, e, p + |Print(e)|)
    decreases e
  {
    hide Unary, IsUnaryTree, At, Print;
    if e.BinaryOp? && e.bop in {MULT, DIV} {
      BinaryAt(ts, p, e);
      MultiplicationReads(ts, p, e.left);
      UnaryReads(ts, p + |Print(e.left)| + 1, e.right);
    } else {
      UnaryReads(ts, p, e);
    }
  }

  lemma {:induction false} AdditionReads(ts: seq<string>, p: nat, e: Node)
    requires IsSum(e) && At(ts, p, Print(e))
    requires !IsMultiplication(Peek(ts, p + |Print(e)|))
    ensures p + |Print(e)| <= |ts|
    ensures Addition(ts, p) == AdditionLoop(ts, e, p + |Print(e)|)
    decreases e
  {
    hide Unary, IsUnaryTree, Multiplication, IsTerm, At, Print;
    if e.BinaryOp? && e.bop in {PLUS, MINUS} {
      BinaryAt(ts, p, e);
      var q := p + |Print(e.left)|;
      AdditionReads(ts, p, e.left);
      MultiplicationReads(ts, q + 1, e.right);
      assert Multiplication(ts, q + 1) == Parsed(e.right, p + |Print(e)|);
    } else {
      MultiplicationReads(ts, p, e);
      assert Multiplication(ts, p) == Parsed(e, p + |Print(e)|);
    }
  }

  // `addition()` reads back any grammar-shaped tree and stops exactly behind it, whatever
  // follows, unless another operator does.
  lemma AdditionInvertsPrint(ts: seq<string>, p: nat, e: Node)
    requires IsSum(e) && At(ts, p, Print(e))
    requires !IsMultiplication(Peek(ts, p + |Print(e)|)) && !IsAddition(Peek(ts, p + |Print(e)|))
    ensures Addition(ts, p) == Parsed(e, p + |Print(e)|)
  {
    AdditionReads(ts, p, e);
  }

  // So no two grammar-shaped trees are written alike.
  lemma PrintIsUnambiguous(e: Node, f: Node)
    requires IsSum(e) && IsSum(f) && Print(e) == Print(f)
    ensures e == f
  {
    hide Addition, Print, IsSum;
    var ts := Print(e);
    assert ts[0..|ts|] == ts;
    AdditionInvertsPrint(ts, 0, e);
    AdditionInvertsPrint(ts, 0, f);
  }

  // ---------- Printing what was parsed ----------

  // A number token stands for its value modulo 256; every other token stands for itself.
  function Canonical(tok: string): string {
    if IsNumber(tok) then Digits(Decimal(tok) % 256) else tok
  }

  function Canonicals(ts: seq<string>): seq<string> {
    seq(|ts|, i requires 0 <= i < |ts| => Canonical(ts[i]))
  }

  lemma CanonicalsSplit(ts: seq<string>, p: nat, q: nat, r: nat)
    requires p <= q <= r <= |ts|
    ensures Canonicals(ts[p..r]) == Canonicals(ts[p..q]) + Canonicals(ts[q..r])
  {
  }

  lemma CanonicalsOne(ts: seq<string>, p: nat)
    requires p < |ts|
    ensures Canonicals(ts[p..p + 1]) == [Canonical(ts[p])]
  {
  }

  predicate Lexed(ts: seq<string>) {
    forall i | 0 <= i < |ts| :: IsToken(ts[i])
  }

  lemma OperatorToken(tok: string)
    requires IsToken(tok) && tok[0] == '-'
    ensures tok == "-"
  {
  }

  lemma {:induction false} UnaryPrints(ts: seq<string>, p: nat)
    requires Lexed(ts) && Unary(ts, p).Parsed?
    ensures var Parsed(e, q) := Unary(ts, p); IsUnaryTree(e) && Print(e) == Canonicals(ts[p..q])
    decreases |ts| - p
  {
    var tok := Peek(ts, p);
    if p < |ts| {
      CanonicalsOne(ts, p);
    }
    if tok[0] == '-' {
      OperatorToken(ts[p]);
      UnaryPrints(ts, p + 1);
      CanonicalsSplit(ts, p, p + 1, Unary(ts, p).next);
    }
  }

  // One more turn of a loop: an operator at p, its right operand up to q, the rest up to r.
  lemma LoopTurnPrints(ts: seq<string>, e: Node, p: nat, q: nat, r: nat)
    requires p < q <= r <= |ts| && e.BinaryOp? && e.bop != INVALID_BINARY
    requires ts[p] == Symbol(e.bop)
    requires Print(e.right) == Canonicals(ts[p + 1..q])
    ensures Print(e) + Canonicals(ts[q..r]) == Print(e.left) + Canonicals(ts[p..r])
  {
    assert !IsDigit(ts[p][0]);
    CanonicalsOne(ts, p);
    CanonicalsSplit(ts, p, p + 1, q);
    CanonicalsSplit(ts, p, q, r);
    Regroup(Print(e.left), [ts[p]], Print(e.right), Canonicals(ts[q..r]));
  }

  lemma Regroup(a: seq<string>, b: seq<string>, c: seq<string>, d: seq<string>)
    ensures a + b + c + d == a + (b + c + d)
  {
  }

  lemma NothingRead(ts: seq<string>, e: Node, p: nat)
    requires p <= |ts|
    ensures Print(e) == Print(e) + Canonicals(ts[p..p])
  {
    assert Canonicals(ts[p..p]) == [];
  }

  lemma {:induction false} MultiplicationLoopPrints(ts: seq<string>, left: Node, p: nat)
    requires Lexed(ts) && p <= |ts| && IsTerm(left) && MultiplicationLoop(ts, left, p).Parsed?
    ensures var Parsed(e, q) := MultiplicationLoop(ts, left, p);
      IsTerm(e) && Print(e) == Print(left) + Canonicals(ts[p..q]) && !IsMultiplication(Peek(ts, q))
    decreases |ts| - p
  {
    hide Unary, Print, Canonicals, IsUnaryTree;
    if IsMultiplication(Peek(ts, p)) {
      var op := if ts[p] == "*" then MULT else DIV;
      UnaryPrints(ts, p + 1);
      var Parsed(right, q) := Unary(ts, p + 1);
      MultiplicationLoopPrints(ts, BinaryOp(op, left, right), q);
      LoopTurnPrints(ts, BinaryOp(op, left, right), p, q, MultiplicationLoop(ts, left, p).next);
    } else {
      NothingRead(ts, left, p);
    }
  }

  lemma MultiplicationPrints(ts: seq<string>, p: nat)
    requires Lexed(ts) && Multiplication(ts, p).Parsed?
    ensures var Parsed(e, q) := Multiplication(ts, p);
      IsTerm(e) && Print(e) == Canonicals(ts[p..q]) && !IsMultiplication(Peek(ts, q))
  {
    hide Unary, MultiplicationLoop;
    UnaryPrints(ts, p);
    var Parsed(left, q) := Unary(ts, p);
    assert IsTerm(left);
    MultiplicationLoopPrints(ts, left, q);
    CanonicalsSplit(ts, p, q, Multiplication(ts, p).next);
  }

  lemma {:induction false} AdditionLoopPrints(ts: seq<string>, left: Node, p: nat)
    requires Lexed(ts) && p <= |ts| && IsSum(left) && AdditionLoop(ts, left, p).Parsed?
    requires !IsMultiplication(Peek(ts, p))
    ensures var Parsed(e, q) := AdditionLoop(ts, left, p);
      && IsSum(e) && Print(e) == Print(left) + Canonicals(ts[p..q])
      && !IsMultiplication(Peek(ts, q)) && !IsAddition(Peek(ts, q))
    decreases |ts| - p
  {
    hide Multiplication, Print, Canonicals, IsTerm;
    if IsAddition(Peek(ts, p)) {
      var op := if ts[p] == "+" then PLUS else MINUS;
      MultiplicationPrints(ts, p + 1);
      var Parsed(right, q) := Multiplication(ts, p + 1);
      AdditionLoopPrints(ts, BinaryOp(op, left, right), q);
      LoopTurnPrints(ts, BinaryOp(op, left, right), p, q, AdditionLoop(ts, left, p).next);
    } else {
      NothingRead(ts, left, p);
    }
  }

  // Whenever `addition()` succeeds on lexed tokens, its tree is grammar-shaped and printing it
  // gives back the tokens consumed, numbers reduced modulo 256; no operator is left unread.
  lemma AdditionPrints(ts: seq<string>, p: nat)
    requires Lexed(ts) && Addition(ts, p).Parsed?
    ensures var Parsed(e, q) := Addition(ts, p);
      && IsSum(e) && Print(e) == Canonicals(ts[p..q])
      && !IsMultiplication(Peek(ts, q)) && !IsAddition(Peek(ts, q))
  {
    hide Multiplication, AdditionLoop;
    MultiplicationPrints(ts, p);
    var Parsed(left, q) := Multiplication(ts, p);
    AdditionLoopPrints(ts, left, q);
    CanonicalsSplit(ts, p, q, Addition(ts, p).next);
  }

  lemma CanonicalSlice(ts: seq<string>, p: nat, q: nat)
    requires p <= q <= |ts| && Canonicals(ts) == ts
    ensures Canonicals(ts[p..q]) == ts[p..q]
  {
    assert Canonicals(ts[p..q]) == Canonicals(ts)[p..q];
  }

  // On tokens whose numbers are already bytes in plain decimal, parsing and printing are
  // inverse in both directions, and nothing else parses.
  lemma AdditionIffPrint(ts: seq<string>, p: nat, e: Node, q: nat)
    requires Lexed(ts) && Canonicals(ts) == ts
    ensures Addition(ts, p) == Parsed(e, q) <==>
              && IsSum(e) && At(ts, p, Print(e)) && q == p + |Print(e)|
              && !IsMultiplication(Peek(ts, q)) && !IsAddition(Peek(ts, q))
  {
    hide Addition, Print, IsSum, Canonicals;
    if Addition(ts, p) == Parsed(e, q) {
      AdditionPrints(ts, p);
      CanonicalSlice(ts, p, q);
    }
    if IsSum(e) && At(ts, p, Print(e)) && q == p + |Print(e)|
       && !IsMultiplication(Peek(ts, q)) && !IsAddition(Peek(ts, q)) {
      AdditionInvertsPrint(ts, p, e);
    }
  }
}
