// The recursive-descent parser with its cursor (src/parser.cpp), proved to follow the grammar.
module Parser {
  import opened Wrappers
  import opened CharUtils
  import opened Ast
  import opened G = Grammar

  type NodeResult = Result<Node, ParseError>

  class Parser {
    const mTokens: seq<string>
    var mPos: nat

    constructor (tokens: seq<string>)
      ensures mTokens == tokens && mPos == 0
    {
      mTokens := tokens;
      mPos := 0;
    }

    // The outcome of a production: its node with the cursor behind it, or its error.
    ghost predicate Follows(spec: Parse, r: NodeResult)
      reads this
    {
      match spec
      case Parsed(n, q) => r == Success(n) && mPos == q
      case Failed(e) => r == Failure(e)
    }

    function Peek(): string
      reads this
    {
      G.Peek(mTokens, mPos)
    }

    method Next() returns (r: Result<string, ParseError>)
      modifies this
      ensures mPos == old(mPos) + 1
      ensures r == if old(mPos) < |mTokens| then Success(mTokens[old(mPos)]) else Failure(OutOfRange)
    {
      r := if mPos < |mTokens| then Success(mTokens[mPos]) else Failure(OutOfRange);
      mPos := mPos + 1;
    }

    // next() where a peek has already seen a token, so that it cannot throw.
    method Advance() returns (tok: string)
      requires mPos < |mTokens|
      modifies this
      ensures mPos == old(mPos) + 1 && tok == mTokens[old(mPos)]
    {
      tok := mTokens[mPos];
      mPos := mPos + 1;
    }

    method PeekNext() returns (r: Result<string, ParseError>)
      ensures r == if mPos + 1 < |mTokens| then Success(mTokens[mPos + 1]) else Failure(OutOfRange)
    {
      r := if mPos + 1 < |mTokens| then Success(mTokens[mPos + 1]) else Failure(OutOfRange);
    }

    method LabelNode() returns (r: NodeResult)
      modifies this
      ensures mPos == old(mPos) + 1
      ensures r == if old(mPos) < |mTokens| then Success(Label(mTokens[old(mPos)])) else Failure(OutOfRange)
    {
      var tok :- Next();
      r := Success(Label(tok));
    }

    method Primary() returns (r: NodeResult)
      modifies this
      ensures Follows(G.Primary(mTokens, old(mPos)), r)
    {
      var tok := Peek();
      if IsLabel(tok) {
        r := LabelNode();
      } else if IsNumber(tok) {
        var digits := Advance();
        r := ParseNumber(digits);
      } else {
        r := Failure(ParserException);
      }
    }

    method Unary() returns (r: NodeResult)
      modifies this
      decreases |mTokens| - mPos
      ensures Follows(G.Unary(mTokens, old(mPos)), r)
    {
      if |Peek()| < 1 {
        return Failure(ParserException);
      }
      if Peek()[0] == '-' {
        var _ := Advance();
        var e :- Unary();
        r := Success(UnaryOp(NEG, e));
      } else {
        r := Primary();
      }
    }

    method Multiplication() returns (r: NodeResult)
      modifies this
      ensures Follows(G.Multiplication(mTokens, old(mPos)), r)
    {
      hide G.Unary, G.Primary;
      var left :- Unary();
      while IsMultiplication(Peek())
        invariant mPos <= |mTokens|
        invariant G.Multiplication(mTokens, old(mPos)) == MultiplicationLoop(mTokens, left, mPos)
        decreases |mTokens| - mPos
      {
        var op := Advance();
        var right :- Unary();
        match op[0] {
          case '*' => left := BinaryOp(MULT, left, right);
          case _ => left := BinaryOp(DIV, left, right);
        }
      }
      r := Success(left);
    }

    method Addition() returns (r: NodeResult)
      modifies this
      ensures Follows(G.Addition(mTokens, old(mPos)), r)
    {
      hide G.Multiplication, G.MultiplicationLoop, G.Unary, G.Primary;
      var left :- Multiplication();
      while IsAddition(Peek())
        invariant mPos <= |mTokens|
        invariant G.Addition(mTokens, old(mPos)) == AdditionLoop(mTokens, left, mPos)
        decreases |mTokens| - mPos
      {
        var op := Advance();
        var right :- Multiplication();
        match op[0] {
          case '+' => left := BinaryOp(PLUS, left, right);
          case _ => left := BinaryOp(MINUS, left, right);
        }
      }
      r := Success(left);
    }

    method Operand() returns (r: NodeResult)
      modifies this
      ensures Follows(G.Operand(mTokens, old(mPos)), r)
    {
      var tok := Peek();
      if IsRegister(tok) {
        var name := Advance();
        r := Success(Register(name[0]));
      } else if IsDRegister(tok) {
        var name := Advance();
        r := Success(DRegister(name[0], name[1]));
      } else {
        r := Addition();
      }
    }

    method Instruction() returns (r: NodeResult)
      modifies this
      ensures Follows(G.Instruction(mTokens, old(mPos)), r)
    {
      hide G.Operand, G.Addition, FindInstruction;
      var word :- Next();
      var operands: seq<Node> := [];
      while !IsNewline(Peek()) && |operands| < 3
        invariant old(mPos) < mPos <= |mTokens|
        invariant OperandLoop(mTokens, [], old(mPos) + 1) == OperandLoop(mTokens, operands, mPos)
        decreases |mTokens| - mPos
      {
        if IsComma(Peek()) {
          var _ := Advance();
        } else {
          var n :- Operand();
          operands := operands + [n];
        }
      }
      r := MakeInstruction(word, operands);
    }

    method DirectiveNode() returns (r: NodeResult)
      modifies this
      ensures Follows(G.DirectiveLine(mTokens, old(mPos)), r)
    {
      var name :- Next();
      match FindDirective(name) {
        case None =>
          return Failure(ParserException);
        case Some(props) =>
          var args: seq<string> := [];
          for i := 0 to props.args
            invariant old(mPos) < mPos <= |mTokens|
            invariant ArgumentLoop(mTokens, [], props.args, old(mPos) + 1)
                   == ArgumentLoop(mTokens, args, props.args - i, mPos)
          {
            if IsNewline(Peek()) {
              return Failure(ParserException);
            }
            var arg :- Next();
            args := args + [arg];
          }
          r := Success(Directive(props.dtype, args));
      }
    }

    method Line() returns (r: NodeResult)
      modifies this
      ensures Follows(G.Line(mTokens, old(mPos)), r)
    {
      var tok := Peek();
      if IsDirective(tok) {
        r := DirectiveNode();
        return;
      }
      if IsLabel(tok) {
        var after :- PeekNext();
        if after == ":" {
          r := LabelNode();
          return;
        }
      }
      if IsInstruction(tok) {
        r := Instruction();
      } else {
        r := Failure(ParserException);
      }
    }

    method Parse() returns (r: NodeResult)
      modifies this
      ensures Follows(ProgramLoop(mTokens, [], old(mPos)), r)
    {
      var lines: seq<Node> := [];
      while !IsEof(Peek())
        invariant ProgramLoop(mTokens, [], old(mPos)) == ProgramLoop(mTokens, lines, mPos)
        decreases |mTokens| - mPos
      {
        if IsNewline(Peek()) {
          var _ := Advance();
        } else {
          var n :- Line();
          lines := lines + [n];
        }
      }
      r := Success(Root(lines));
    }
  }
}
