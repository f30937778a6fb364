// The abstract syntax tree and the instruction table (include/parser.hpp, src/parser.cpp).
module Ast {
  import opened Wrappers

  type byte = x: int | 0 <= x < 256

  datatype InstructionType =
    | ADD | ADC | INC | SUB | SBC | AND | XOR | OR | CP | DEC | RLC
    | RLCA | RL | RLA | RRC | RRCA | RR | RRA | DAA | SCF | CPL | CCF
    | LD | LDI | LDD | PUSH | POP | JR | RET | RETI | JP | CALL | RST
    | NOP | STOP | HALT | DI | EI | SLA | SRA | SWAP | SRL | BIT | RES
    | SET | INVALID

  datatype DirectiveType = SECTION | INVALID_DIRECTIVE

  datatype BinaryOpType = PLUS | MINUS | MULT | DIV | INVALID_BINARY

  datatype UnaryOpType = NEG | INVALID_UNARY

  datatype Node =
    | Root(children: seq<Node>)
    | Instruction0(itype: InstructionType)
    | Instruction1(itype: InstructionType, operand: Node)
    | Instruction2(itype: InstructionType, left: Node, right: Node)
    | Register(reg: char)
    | DRegister(reg1: char, reg2: char)
    | Label(name: string)
    | Directive(dtype: DirectiveType, operands: seq<string>)
    | Number(value: byte)
    | BinaryOp(bop: BinaryOpType, left: Node, right: Node)
    | UnaryOp(uop: UnaryOpType, operand: Node)
    | InvalidNode

  // How many operands an instruction takes, in its two forms.
  datatype InstructionProps = InstructionProps(itype: InstructionType, args1: nat, args2: nat)

  function FindInstruction(tok: string): Option<InstructionProps> {
    match tok
    case "add" => Some(InstructionProps(ADD, 2, 2))
    case "adc" => Some(InstructionProps(ADC, 2, 2))
    case "inc" => Some(InstructionProps(INC, 1, 1))
    case "sub" => Some(InstructionProps(SUB, 1, 2))
    case "sbc" => Some(InstructionProps(SBC, 2, 2))
    case "and" => Some(InstructionProps(AND, 1, 1))
    case "xor" => Some(InstructionProps(XOR, 1, 1))
    case "or" => Some(InstructionProps(OR, 1, 1))
    case "cp" => Some(InstructionProps(CP, 1, 1))
    case "dec" => Some(InstructionProps(DEC, 1, 1))
    case "rlc" => Some(InstructionProps(RLC, 1, 1))
    case "rlca" => Some(InstructionProps(RLCA, 0, 0))
    case "rl" => Some(InstructionProps(RL, 1, 1))
    case "rla" => Some(InstructionProps(RLA, 0, 0))
    case "rrc" => Some(InstructionProps(RRC, 1, 1))
    case "rrca" => Some(InstructionProps(RRCA, 0, 0))
    case "rr" => Some(InstructionProps(RR, 1, 1))
    case "rra" => Some(InstructionProps(RRA, 0, 0))
    case "daa" => Some(InstructionProps(DAA, 0, 0))
    case "scf" => Some(InstructionProps(SCF, 0, 0))
    case "cpl" => Some(InstructionProps(CPL, 0, 0))
    case "ccf" => Some(InstructionProps(CCF, 0, 0))
    case "ld" => Some(InstructionProps(LD, 2, 2))
    case "ldi" => Some(InstructionProps(LDI, 2, 2))
    case "ldd" => Some(InstructionProps(LDD, 2, 2))
    case "push" => Some(InstructionProps(PUSH, 1, 1))
    case "pop" => Some(InstructionProps(POP, 1, 1))
    case "jr" => Some(InstructionProps(JR, 1, 2))
    case "ret" => Some(InstructionProps(RET, 0, 0))
    case "jp" => Some(InstructionProps(JP, 0, 0))
    case "call" => Some(InstructionProps(CALL, 0, 0))
    case "rst" => Some(InstructionProps(RST, 1, 1))
    case "nop" => Some(InstructionProps(NOP, 0, 0))
    case "stop" => Some(InstructionProps(STOP, 0, 0))
    case "halt" => Some(InstructionProps(HALT, 0, 0))
    case "di" => Some(InstructionProps(DI, 0, 0))
    case "ei" => Some(InstructionProps(EI, 0, 0))
    case "sla" => Some(InstructionProps(SLA, 1, 1))
    case "sra" => Some(InstructionProps(SRA, 1, 1))
    case "swap" => Some(InstructionProps(SWAP, 1, 1))
    case "srl" => Some(InstructionProps(SRL, 1, 1))
    case "bit" => Some(InstructionProps(BIT, 2, 2))
    case "res" => Some(InstructionProps(RES, 2, 2))
    case "set" => Some(InstructionProps(SET, 2, 2))
    case _ => None
  }

  // The source word of an instruction type. RETI is encodable but has no word.
  function Lexeme(t: InstructionType): string {
    match t
    case ADD => "add"
    case ADC => "adc"
    case INC => "inc"
    case SUB => "sub"
    case SBC => "sbc"
    case AND => "and"
    case XOR => "xor"
    case OR => "or"
    case CP => "cp"
    case DEC => "dec"
    case RLC => "rlc"
    case RLCA => "rlca"
    case RL => "rl"
    case RLA => "rla"
    case RRC => "rrc"
    case RRCA => "rrca"
    case RR => "rr"
    case RRA => "rra"
    case DAA => "daa"
    case SCF => "scf"
    case CPL => "cpl"
    case CCF => "ccf"
    case LD => "ld"
    case LDI => "ldi"
    case LDD => "ldd"
    case PUSH => "push"
    case POP => "pop"
    case JR => "jr"
    case RET => "ret"
    case JP => "jp"
    case CALL => "call"
    case RST => "rst"
    case NOP => "nop"
    case STOP => "stop"
    case HALT => "halt"
    case DI => "di"
    case EI => "ei"
    case SLA => "sla"
    case SRA => "sra"
    case SWAP => "swap"
    case SRL => "srl"
    case BIT => "bit"
    case RES => "res"
    case SET => "set"
    case RETI => ""
    case INVALID => ""
  }

  // The first half of the table: arithmetic and rotation.
  predicate IsAluType(t: InstructionType) {
    t in {ADD, ADC, INC, SUB, SBC, AND, XOR, OR, CP, DEC, RLC, RLCA, RL, RLA, RRC, RRCA, RR, RRA, DAA, SCF, CPL, CCF}
  }

  lemma AluLexemeFound(t: InstructionType)
    requires IsAluType(t)
    ensures Lexeme(t) != "" && FindInstruction(Lexeme(t)).Some?
    ensures FindInstruction(Lexeme(t)).value.itype == t
  {
  }

  lemma OtherLexemeFound(t: InstructionType)
    requires Lexeme(t) != "" && !IsAluType(t)
    ensures FindInstruction(Lexeme(t)).Some?
    ensures FindInstruction(Lexeme(t)).value.itype == t
  {
  }

  lemma LexemeFound(t: InstructionType)
    requires Lexeme(t) != ""
    ensures FindInstruction(Lexeme(t)).Some? && FindInstruction(Lexeme(t)).value.itype == t
  {
    hide FindInstruction, Lexeme;
    if IsAluType(t) {
      AluLexemeFound(t);
    } else {
      OtherLexemeFound(t);
    }
  }

  lemma AluFoundLexeme(tok: string)
    requires FindInstruction(tok).Some? && IsAluType(FindInstruction(tok).value.itype)
    ensures Lexeme(FindInstruction(tok).value.itype) == tok
  {
  }

  lemma OtherFoundLexeme(tok: string)
    requires FindInstruction(tok).Some? && !IsAluType(FindInstruction(tok).value.itype)
    ensures Lexeme(FindInstruction(tok).value.itype) == tok
  {
  }

  // The table and the words are inverse to each other.
  lemma FoundLexeme(tok: string)
    requires FindInstruction(tok).Some?
    ensures Lexeme(FindInstruction(tok).value.itype) == tok
  {
    hide FindInstruction, Lexeme;
    if IsAluType(FindInstruction(tok).value.itype) {
      AluFoundLexeme(tok);
    } else {
      OtherFoundLexeme(tok);
    }
  }
}
