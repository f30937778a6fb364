// Machine code: the encoders and the operand format table (src/assembler.cpp,
// include/assembler.hpp), what an instruction emits, and a decoder for it.
module Encoding {
  import opened Wrappers
  import opened Ast

  datatype OperandType =
    | REGISTER_OPERAND | DREGISTER_OPERAND | IMM8 | IMM16 | RADDR | IADDR | FLAG | NO_OPERAND

  type Format = (OperandType, OperandType)

  // The operand forms known for an instruction type; None where the table has no entry.
  function Formats(t: InstructionType): Option<seq<Format>> {
    match t
    case INC => Some([(REGISTER_OPERAND, NO_OPERAND), (DREGISTER_OPERAND, NO_OPERAND)])
    case DEC => Some([(REGISTER_OPERAND, NO_OPERAND), (DREGISTER_OPERAND, NO_OPERAND)])
    case LD => Some([(REGISTER_OPERAND, IMM8), (DREGISTER_OPERAND, IMM16)])
    case NOP => Some([(NO_OPERAND, NO_OPERAND)])
    case STOP => Some([(NO_OPERAND, NO_OPERAND)])
    case RLCA => Some([(NO_OPERAND, NO_OPERAND)])
    case RLA => Some([(NO_OPERAND, NO_OPERAND)])
    case DAA => Some([(NO_OPERAND, NO_OPERAND)])
    case SCF => Some([(NO_OPERAND, NO_OPERAND)])
    case RRCA => Some([(NO_OPERAND, NO_OPERAND)])
    case RRA => Some([(NO_OPERAND, NO_OPERAND)])
    case CPL => Some([(NO_OPERAND, NO_OPERAND)])
    case CCF => Some([(NO_OPERAND, NO_OPERAND)])
    case JR => Some([(FLAG, IMM8), (IMM8, NO_OPERAND)])
    case HALT => Some([(NO_OPERAND, NO_OPERAND)])
    case SUB => Some([(REGISTER_OPERAND, NO_OPERAND), (REGISTER_OPERAND, IMM8)])
    case AND => Some([(REGISTER_OPERAND, NO_OPERAND), (REGISTER_OPERAND, IMM8)])
    case XOR => Some([(REGISTER_OPERAND, NO_OPERAND), (REGISTER_OPERAND, IMM8)])
    case OR => Some([(REGISTER_OPERAND, NO_OPERAND), (REGISTER_OPERAND, IMM8)])
    case CP => Some([(REGISTER_OPERAND, NO_OPERAND), (REGISTER_OPERAND, IMM8)])
    case POP => Some([(DREGISTER_OPERAND, NO_OPERAND)])
    case PUSH => Some([(DREGISTER_OPERAND, NO_OPERAND)])
    case DI => Some([(NO_OPERAND, NO_OPERAND)])
    case EI => Some([(NO_OPERAND, NO_OPERAND)])
    case RET => Some([(NO_OPERAND, NO_OPERAND), (FLAG, IMM8)])
    case RETI => Some([(NO_OPERAND, NO_OPERAND)])
    case JP => Some([(FLAG, IMM8), (IMM16, NO_OPERAND)])
    case CALL => Some([(FLAG, IMM8), (IMM16, NO_OPERAND)])
    case _ => None
  }

  // ---------- Bit operations ----------

  function Shl(x: nat, n: nat): nat {
    if n == 0 then x else 2 * Shl(x, n - 1)
  }

  function Or(a: nat, b: nat): nat {
    if a == 0 then b else 2 * Or(a / 2, b / 2) + (if a % 2 == 1 || b % 2 == 1 then 1 else 0)
  }

  // Bits that do not overlap can be added.
  lemma {:induction false} OrDisjoint(x: nat, n: nat, low: nat)
    requires low < Shl(1, n)
    ensures Or(Shl(x, n), low) == Shl(x, n) + low
    decreases n
  {
    if n == 0 {
      OrZero(x);
    } else {
      OrDisjoint(x, n - 1, low / 2);
      var half := Shl(x, n - 1);
      if half != 0 {
        assert Or(2 * half, low) == 2 * Or(half, low / 2) + low % 2;
      }
    }
  }

  lemma {:induction false} OrZero(x: nat)
    ensures Or(x, 0) == x
  {
    if x != 0 {
      OrZero(x / 2);
    }
  }

  // ---------- Encoders; None where they throw ----------

  function EncodeRegister(reg: char): (r: Option<nat>)
    ensures r.Some? ==> r.value < 8
  {
    match reg
    case 'b' => Some(0)
    case 'c' => Some(1)
    case 'd' => Some(2)
    case 'e' => Some(3)
    case 'h' => Some(4)
    case 'l' => Some(5)
    case 'm' => Some(6)
    case 'a' => Some(7)
    case _ => None
  }

  function EncodeDRegister(reg0: char, reg1: char): (r: Option<nat>)
    ensures r.Some? ==> r.value < 4
  {
    if reg0 == 'b' && reg1 == 'c' then Some(0)
    else if reg0 == 'd' && reg1 == 'e' then Some(1)
    else if reg0 == 'h' && reg1 == 'l' then Some(2)
    else if reg0 == 'a' && reg1 == 'f' then Some(3)
    else None
  }

  function EncodeNone(t: InstructionType): Option<byte> {
    match t
    case NOP => Some(0x00)
    case STOP => Some(0x10)
    case RLCA => Some(0x07)
    case RLA => Some(0x17)
    case DAA => Some(0x27)
    case SCF => Some(0x37)
    case RRCA => Some(0x0f)
    case RRA => Some(0x1f)
    case CPL => Some(0x2f)
    case CCF => Some(0x3f)
    case HALT => Some(0x76)
    case DI => Some(0xf3)
    case RET => Some(0xc9)
    case RETI => Some(0xd9)
    case EI => Some(0xfb)
    case _ => None
  }

  function OpcodeRA(t: InstructionType): Option<nat> {
    match t
    case SUB => Some(0x12)
    case SBC => Some(0x13)
    case AND => Some(0x14)
    case XOR => Some(0x15)
    case OR => Some(0x16)
    case CP => Some(0x17)
    case _ => None
  }

  // A <- A op reg
  function EncodeRA(t: InstructionType, reg: char): Option<byte> {
    match (OpcodeRA(t), EncodeRegister(reg))
    case (Some(opcode), Some(r)) => Some(Or(Shl(opcode, 3), r) % 256)
    case _ => None
  }

  // reg <- op reg. The register number is not shifted.
  function EncodeR(t: InstructionType, reg: char): Option<byte> {
    match (t, EncodeRegister(reg))
    case (INC, Some(r)) => Some(Or(Or(Shl(0, 6), r), 0x4) % 256)
    case (DEC, Some(r)) => Some(Or(Or(Shl(0, 6), r), 0x5) % 256)
    case _ => None
  }

  // The two high bits and the four low bits of an instruction on a register pair.
  function OpcodeD(t: InstructionType): Option<(nat, nat)> {
    match t
    case INC => Some((0x0, 0x3))
    case DEC => Some((0x0, 0xb))
    case POP => Some((0x3, 0x1))
    case PUSH => Some((0x3, 0x5))
    case _ => None
  }

  // dreg <- op dreg
  function EncodeD(t: InstructionType, reg0: char, reg1: char): Option<byte> {
    match (OpcodeD(t), EncodeDRegister(reg0, reg1))
    case (Some((prefix, opcode)), Some(d)) => Some(Or(Or(Shl(prefix, 6), Shl(d, 4)), opcode) % 256)
    case _ => None
  }

  // The opcodes in front of an immediate.
  function EncodeI8(t: InstructionType): Option<byte> {
    match t
    case JR => Some(0x18)
    case SUB => Some(0xd6)
    case AND => Some(0xe6)
    case OR => Some(0xf6)
    case XOR => Some(0xee)
    case CP => Some(0xff)
    case _ => None
  }

  function EncodeI16(t: InstructionType): Option<byte> {
    match t
    case JP => Some(0xc3)
    case CALL => Some(0xcd)
    case _ => None
  }

  // The encoders as opcode tables: base byte plus register number.
  lemma EncodeRAIsSum(t: InstructionType, reg: char)
    requires OpcodeRA(t).Some? && EncodeRegister(reg).Some?
    ensures EncodeRA(t, reg) == Some(8 * OpcodeRA(t).value + EncodeRegister(reg).value)
  {
    hide Or, Shl;
    var opcode, r := OpcodeRA(t).value, EncodeRegister(reg).value;
    ShlThree(opcode);
    ShlThree(1);
    OrDisjoint(opcode, 3, r);
  }

  lemma ShlThree(x: nat)
    ensures Shl(x, 3) == 8 * x
  {
    assert Shl(x, 1) == 2 * x && Shl(x, 2) == 4 * x;
  }

  lemma ShlFour(x: nat)
    ensures Shl(x, 4) == 16 * x
  {
    ShlThree(x);
  }

  lemma ShlSix(x: nat)
    ensures Shl(x, 6) == 64 * x
  {
    ShlFour(x);
    assert Shl(x, 5) == 32 * x;
  }

  lemma EncodeDIsSum(t: InstructionType, reg0: char, reg1: char)
    requires OpcodeD(t).Some? && EncodeDRegister(reg0, reg1).Some?
    ensures var (prefix, opcode) := OpcodeD(t).value;
      EncodeD(t, reg0, reg1) == Some(64 * prefix + 16 * EncodeDRegister(reg0, reg1).value + opcode)
  {
    hide Or, Shl;
    var (prefix, opcode) := OpcodeD(t).value;
    var d := EncodeDRegister(reg0, reg1).value;
    ShlSix(prefix);
    ShlSix(1);
    ShlFour(d);
    ShlFour(1);
    ShlFour(4 * prefix + d);
    OrDisjoint(prefix, 6, 16 * d);
    OrDisjoint(4 * prefix + d, 4, opcode);
  }

  lemma OrOne(x: nat)
    requires x < 2
    ensures Or(x, 0) == x && Or(x, 1) == 1
  {
  }

  lemma OrTwo(x: nat)
    requires x < 4
    ensures Or(x, 2) == 2 + x % 2
  {
    OrOne(x / 2);
    if x != 0 {
      assert Or(x, 2) == 2 * Or(x / 2, 1) + x % 2;
    }
  }

  lemma OrFour(x: nat)
    requires x < 8
    ensures Or(x, 4) == 4 + x % 4 && Or(x, 5) == 5 + 2 * (x / 2 % 2)
  {
    OrTwo(x / 2);
    if x != 0 {
      assert Or(x, 4) == 2 * Or(x / 2, 2) + x % 2;
      assert Or(x, 5) == 2 * Or(x / 2, 2) + 1;
    }
  }

  lemma StepBits(r: nat)
    requires r < 8
    ensures Or(Or(Shl(0, 6), r), 4) == 4 + r % 4
    ensures Or(Or(Shl(0, 6), r), 5) == 5 + 2 * (r / 2 % 2)
  {
    ShlSix(0);
    OrFromZero(r);
    OrFour(r);
  }

  // Without the shift, register numbers run into the opcode.
  lemma EncodeRBytes(reg: char)
    requires EncodeRegister(reg).Some?
    ensures var r := EncodeRegister(reg).value;
      && EncodeR(INC, reg) == Some(4 + r % 4)
      && EncodeR(DEC, reg) == Some(5 + 2 * (r / 2 % 2))
  {
    hide Shl, Or, EncodeRegister;
    StepBits(EncodeRegister(reg).value);
  }

  lemma OrFromZero(x: nat)
    ensures Or(0, x) == x
  {
  }

  // ---------- What an instruction emits ----------

  // Emits: bytes for the current section. Silent: nothing is added and nothing is reported.
  // Unsupported: AssemblerException.
  datatype Emission = Emits(code: byte) | Silent | Unsupported

  function Emitting(code: Option<byte>): Emission {
    match code
    case Some(b) => Emits(b)
    case None => Unsupported
  }

  predicate IsStep(t: InstructionType) {
    t == INC || t == DEC
  }

  predicate IsAccumulatorOp(t: InstructionType) {
    t in {SUB, AND, XOR, OR, CP}
  }

  predicate IsPairOp(t: InstructionType) {
    t in {INC, DEC, POP, PUSH}
  }

  // Without the table: bare opcodes, one register, one register pair. Any other operand is
  // unsupported, and two operands are passed over in silence.
  function Emission1(t: InstructionType, operand: Node): Emission {
    match operand
    case Register(c) =>
      if IsStep(t) then Emitting(EncodeR(t, c))
      else if IsAccumulatorOp(t) then Emitting(EncodeRA(t, c))
      else Unsupported
    case DRegister(c, d) =>
      if IsPairOp(t) then Emitting(EncodeD(t, c, d)) else Unsupported
    case _ => Unsupported
  }

  function EmissionOf(n: Node): Emission
    requires IsInstructionNode(n)
  {
    match n
    case Instruction0(t) =>
      if Formats(t).None? then Silent
      else if EncodeNone(t).Some? then Emits(EncodeNone(t).value)
      else Unsupported
    case Instruction1(t, operand) => Emission1(t, operand)
    case Instruction2(_, _, _) => Silent
  }

  predicate IsInstructionNode(n: Node) {
    n.Instruction0? || n.Instruction1? || n.Instruction2?
  }

  // The table marks exactly the bare opcodes as taking no operand.
  lemma BareFormats(t: InstructionType)
    requires Formats(t).Some?
    ensures EncodeNone(t).Some? <==> (NO_OPERAND, NO_OPERAND) in Formats(t).value
  {
  }

  lemma RegisterFormats(t: InstructionType)
    ensures Formats(t).Some? && (REGISTER_OPERAND, NO_OPERAND) in Formats(t).value
            <==> IsStep(t) || IsAccumulatorOp(t)
  {
  }

  lemma PairFormats(t: InstructionType)
    ensures Formats(t).Some? && (DREGISTER_OPERAND, NO_OPERAND) in Formats(t).value <==> IsPairOp(t)
    ensures Formats(t).Some? ==> (RADDR, NO_OPERAND) !in Formats(t).value
  {
  }

  lemma ImmediateFormats(t: InstructionType)
    ensures Formats(t).Some? && (IMM8, NO_OPERAND) in Formats(t).value <==> t == JR
    ensures Formats(t).Some? && (IMM16, NO_OPERAND) in Formats(t).value <==> t in {JP, CALL}
  {
  }

  // The operand nodes that fit a kind of operand in the table.
  predicate Fits(operand: Node, kind: OperandType) {
    match kind
    case REGISTER_OPERAND => operand.Register?
    case DREGISTER_OPERAND => operand.DRegister?
    case IMM8 => operand.Number?
    case IMM16 => operand.Number?
    case _ => false
  }

  predicate HasNumber(operand: Node) {
    match operand
    case Register(c) => EncodeRegister(c).Some?
    case DRegister(c, d) => EncodeDRegister(c, d).Some?
    case _ => false
  }

  // A one-operand form the table lists is assembled exactly when its operand is a register or
  // register pair with a number; immediates are listed and rejected all the same.
  lemma ListedFormEmitsIff(t: InstructionType, operand: Node, kind: OperandType)
    requires Formats(t).Some? && (kind, NO_OPERAND) in Formats(t).value && Fits(operand, kind)
    ensures EmissionOf(Instruction1(t, operand)).Emits? <==> HasNumber(operand)
    ensures !HasNumber(operand) ==> EmissionOf(Instruction1(t, operand)).Unsupported?
  {
    hide Formats, EncodeRegister, EncodeDRegister, Or, Shl;
    RegisterFormats(t);
    PairFormats(t);
  }

  // Without operand: silent outside the table, rejected where the table lists other forms only.
  lemma BareEmissionIff(t: InstructionType)
    ensures var emission := EmissionOf(Instruction0(t));
      && (emission.Silent? <==> Formats(t).None?)
      && (emission.Unsupported? <==> Formats(t).Some? && (NO_OPERAND, NO_OPERAND) !in Formats(t).value)
      && (emission.Emits? <==>
            t in {NOP, STOP, RLCA, RLA, DAA, SCF, RRCA, RRA, CPL, CCF, HALT, DI, EI, RET, RETI})
      && (emission.Unsupported? <==>
            t in {INC, DEC, LD, JR, SUB, AND, XOR, OR, CP, POP, PUSH, JP, CALL})
  {
  }

  predicate ListsForm(t: InstructionType, operand: Node) {
    && Formats(t).Some?
    && ((operand.Register? && (REGISTER_OPERAND, NO_OPERAND) in Formats(t).value)
        || (operand.DRegister? && (DREGISTER_OPERAND, NO_OPERAND) in Formats(t).value))
  }

  // With one operand: never silent, and rejected unless the form is listed and the register or
  // pair has a number.
  lemma OneOperandEmissionIff(t: InstructionType, operand: Node)
    ensures var emission := EmissionOf(Instruction1(t, operand));
      && (emission.Emits? <==> ListsForm(t, operand) && HasNumber(operand))
      && (emission.Unsupported? <==> !emission.Emits?)
  {
    hide Formats, EncodeRegister, EncodeDRegister, Or, Shl;
    RegisterFormats(t);
    PairFormats(t);
  }

  // ---------- Decoding ----------

  function RegisterName(r: nat): Option<char> {
    match r
    case 0 => Some('b')
    case 1 => Some('c')
    case 2 => Some('d')
    case 3 => Some('e')
    case 4 => Some('h')
    case 5 => Some('l')
    case 6 => Some('m')
    case 7 => Some('a')
    case _ => None
  }

  function PairName(d: nat): Option<Node> {
    match d
    case 0 => Some(DRegister('b', 'c'))
    case 1 => Some(DRegister('d', 'e'))
    case 2 => Some(DRegister('h', 'l'))
    case 3 => Some(DRegister('a', 'f'))
    case _ => None
  }

  // The encoder numbers the eight registers and the four pairs without repetition or gap.
  lemma RegisterNumbering(c: char, r: nat)
    ensures EncodeRegister(c) == Some(r) <==> RegisterName(r) == Some(c)
  {
  }

  lemma PairNumbering(c: char, d: char, r: nat)
    ensures EncodeDRegister(c, d) == Some(r) <==> PairName(r) == Some(DRegister(c, d))
  {
  }

  function DecodeBare(b: byte): Option<InstructionType> {
    match b
    case 0x00 => Some(NOP)
    case 0x10 => Some(STOP)
    case 0x07 => Some(RLCA)
    case 0x17 => Some(RLA)
    case 0x27 => Some(DAA)
    case 0x37 => Some(SCF)
    case 0x0f => Some(RRCA)
    case 0x1f => Some(RRA)
    case 0x2f => Some(CPL)
    case 0x3f => Some(CCF)
    case 0x76 => Some(HALT)
    case 0xf3 => Some(DI)
    case 0xc9 => Some(RET)
    case 0xd9 => Some(RETI)
    case 0xfb => Some(EI)
    case _ => None
  }

  function DecodeAccumulatorOp(b: byte): Option<InstructionType> {
    match b / 8
    case 0x12 => Some(SUB)
    case 0x14 => Some(AND)
    case 0x15 => Some(XOR)
    case 0x16 => Some(OR)
    case 0x17 => Some(CP)
    case _ => None
  }

  function DecodePairOp(b: byte): Option<InstructionType> {
    if b < 0x40 && b % 16 == 0x3 then Some(INC)
    else if b < 0x40 && b % 16 == 0xb then Some(DEC)
    else if b >= 0xc0 && b % 16 == 0x1 then Some(POP)
    else if b >= 0xc0 && b % 16 == 0x5 then Some(PUSH)
    else None
  }

  function DecodeByte(b: byte): Option<Node> {
    if DecodeBare(b).Some? then
      Some(Instruction0(DecodeBare(b).value))
    else if DecodeAccumulatorOp(b).Some? && RegisterName(b % 8).Some? then
      Some(Instruction1(DecodeAccumulatorOp(b).value, Register(RegisterName(b % 8).value)))
    else if DecodePairOp(b).Some? && PairName(b / 16 % 4).Some? then
      Some(Instruction1(DecodePairOp(b).value, PairName(b / 16 % 4).value))
    else if b == 0x06 then
      Some(INC_D)
    else
      None
  }

  function DecodeAll(code: seq<byte>): Option<seq<Node>> {
    if code == [] then Some([])
    else match (DecodeByte(code[0]), DecodeAll(code[1..]))
      case (Some(n), Some(rest)) => Some([n] + rest)
      case _ => None
  }

  // The only 8-bit increment or decrement that is decoded.
  const INC_D := Instruction1(INC, Register('d'))

  // The instructions the decoder recovers.
  predicate Decodable(n: Node) {
    match n
    case Instruction0(t) => EncodeNone(t).Some?
    case Instruction1(t, Register(c)) => n == INC_D || (IsAccumulatorOp(t) && EncodeRegister(c).Some?)
    case Instruction1(t, DRegister(c, d)) => IsPairOp(t) && EncodeDRegister(c, d).Some?
    case _ => false
  }

  lemma BareDecodes(t: InstructionType)
    requires EncodeNone(t).Some?
    ensures Formats(t).Some? && DecodeBare(EncodeNone(t).value) == Some(t)
  {
  }

  lemma AccumulatorOpDecodes(t: InstructionType, c: char)
    requires IsAccumulatorOp(t) && EncodeRegister(c).Some?
    ensures EncodeRA(t, c).Some?
    ensures DecodeByte(EncodeRA(t, c).value) == Some(Instruction1(t, Register(c)))
  {
    hide EncodeRA;
    EncodeRAIsSum(t, c);
    var b: byte := EncodeRA(t, c).value;
    assert DecodeBare(b).None?;
    assert RegisterName(EncodeRegister(c).value) == Some(c);
    assert b / 8 == OpcodeRA(t).value && b % 8 == EncodeRegister(c).value;
  }

  lemma PairOpDecodes(t: InstructionType, c: char, d: char)
    requires IsPairOp(t) && EncodeDRegister(c, d).Some?
    ensures EncodeD(t, c, d).Some?
    ensures DecodeByte(EncodeD(t, c, d).value) == Some(Instruction1(t, DRegister(c, d)))
  {
    hide EncodeD;
    EncodeDIsSum(t, c, d);
    var b: byte := EncodeD(t, c, d).value;
    assert DecodeBare(b).None?;
    assert b / 16 % 4 == EncodeDRegister(c, d).value;
    assert PairName(EncodeDRegister(c, d).value) == Some(DRegister(c, d));
  }

  lemma IncDDecodes()
    ensures EmissionOf(INC_D) == Emits(0x06) && DecodeByte(0x06) == Some(INC_D)
  {
    hide EncodeR;
    EncodeRBytes('d');
  }

  lemma DecodableRoundTrip(n: Node)
    requires Decodable(n)
    ensures IsEmitting(n) && DecodeByte(EmissionOf(n).code) == Some(n)
  {
    hide EncodeRA, EncodeR, EncodeD, EncodeNone, EncodeRegister, EncodeDRegister, Formats, DecodeBare;
    if n == INC_D {
      IncDDecodes();
    } else {
      match n {
        case Instruction0(t) => BareDecodes(t);
        case Instruction1(t, Register(c)) => AccumulatorOpDecodes(t, c);
        case Instruction1(t, DRegister(c, d)) => PairOpDecodes(t, c, d);
      }
    }
  }

  // ---------- Programs ----------

  predicate IsEmitting(n: Node) {
    IsInstructionNode(n) && EmissionOf(n).Emits?
  }

  function CodeOf(n: Node): seq<byte> {
    if IsEmitting(n) then [EmissionOf(n).code] else []
  }

  // The bytes of a program, instruction after instruction.
  function Code(nodes: seq<Node>): seq<byte> {
    if nodes == [] then [] else CodeOf(nodes[0]) + Code(nodes[1..])
  }

  function EmittedOf(n: Node): seq<Node> {
    if IsEmitting(n) then [n] else []
  }

  // The instructions those bytes come from.
  function Emitted(nodes: seq<Node>): seq<Node> {
    if nodes == [] then [] else EmittedOf(nodes[0]) + Emitted(nodes[1..])
  }

  // Byte k is the code of the k-th emitting instruction.
  lemma {:induction false} CodeOfEmitted(nodes: seq<Node>)
    ensures |Code(nodes)| == |Emitted(nodes)|
    ensures forall k | 0 <= k < |Emitted(nodes)| ::
              IsEmitting(Emitted(nodes)[k]) && Code(nodes)[k] == EmissionOf(Emitted(nodes)[k]).code
    ensures forall n | n in Emitted(nodes) :: n in nodes
  {
    hide EmissionOf;
    if nodes != [] {
      CodeOfEmitted(nodes[1..]);
    }
  }

  // Programs of any length whose emitting instructions are decodable are recovered from their
  // bytes, but for what emits nothing.
  lemma {:induction false} CodeDecodes(nodes: seq<Node>)
    requires forall n | n in nodes && IsEmitting(n) :: Decodable(n)
    ensures DecodeAll(Code(nodes)) == Some(Emitted(nodes))
  {
    hide Decodable, DecodeByte, EmissionOf;
    if nodes != [] {
      var n, rest := nodes[0], nodes[1..];
      assert n in nodes && forall m | m in rest :: m in nodes;
      CodeDecodes(rest);
      if IsEmitting(n) {
        DecodableRoundTrip(n);
        var code := Code(nodes);
        assert code == [EmissionOf(n).code] + Code(rest);
        assert code[1..] == Code(rest);
      } else {
        assert Code(nodes) == Code(rest) && Emitted(nodes) == Emitted(rest);
      }
    }
  }

  // ---------- Exactly which instructions can be told apart ----------

  predicate IsByteStep(n: Node) {
    n.Instruction1? && IsStep(n.itype) && n.operand.Register? && EncodeRegister(n.operand.reg).Some?
  }

  // The register 'm' stands for (hl) in the register encoding; the parser never makes it.
  predicate UsesStandIn(n: Node) {
    n.Instruction1? && n.operand == Register('m')
  }

  lemma EmittingCases(n: Node)
    requires IsEmitting(n)
    ensures Decodable(n) || IsByteStep(n)
  {
    hide Or, Shl, Formats;
  }

  lemma ByteStepCode(n: Node)
    requires IsByteStep(n)
    ensures IsEmitting(n) && 4 <= EmissionOf(n).code < 8
    ensures EmissionOf(n).code == 6 <==> n == INC_D || n == Instruction1(INC, Register('m'))
  {
    hide EncodeR;
    EncodeRBytes(n.operand.reg);
  }

  lemma DecodableCode(n: Node)
    requires Decodable(n)
    ensures IsEmitting(n)
    ensures 4 <= EmissionOf(n).code < 8 ==> n == if EmissionOf(n).code == 6 then INC_D else Instruction0(RLCA)
  {
    hide EmissionOf, Decodable, DecodeByte;
    DecodableRoundTrip(n);
    LowBytesDecode(EmissionOf(n).code);
  }

  lemma LowBytesDecode(b: byte)
    ensures 4 <= b < 8 ==>
              DecodeByte(b) == if b == 7 then Some(Instruction0(RLCA)) else if b == 6 then Some(INC_D) else None
  {
  }

  // Another instruction with the same byte, for each one that has such a twin.
  function Twin(n: Node): Node {
    match n
    case Instruction0(_) => Instruction1(INC, Register('e'))
    case Instruction1(t, Register(c)) =>
      if t == INC then
        (match c
         case 'b' => Instruction1(INC, Register('h'))
         case 'h' => Instruction1(INC, Register('b'))
         case 'c' => Instruction1(INC, Register('l'))
         case 'l' => Instruction1(INC, Register('c'))
         case 'd' => Instruction1(INC, Register('m'))
         case 'm' => Instruction1(INC, Register('d'))
         case 'e' => Instruction1(INC, Register('a'))
         case _ => Instruction1(INC, Register('e')))
      else
        (match c
         case 'b' => Instruction1(DEC, Register('c'))
         case 'd' => Instruction1(DEC, Register('e'))
         case 'e' => Instruction1(DEC, Register('d'))
         case 'm' => Instruction1(DEC, Register('d'))
         case 'a' => Instruction1(DEC, Register('d'))
         case _ => Instruction1(DEC, Register('b')))
    case _ => n
  }

  predicate SharesItsByte(n: Node) {
    n == Instruction0(RLCA) || IsByteStep(n)
  }

  predicate SameCode(n: Node, m: Node) {
    IsInstructionNode(n) && IsInstructionNode(m) && EmissionOf(m) == EmissionOf(n)
  }

  lemma TwinOfStep(n: Node)
    requires IsByteStep(n)
    ensures Twin(n) != n && SameCode(n, Twin(n))
    ensures UsesStandIn(Twin(n)) <==> n == INC_D
  {
    hide EncodeR;
    EncodeRBytes(Twin(n).operand.reg);
    EncodeRBytes(n.operand.reg);
  }

  lemma TwinSharesByte(n: Node)
    requires SharesItsByte(n)
    ensures Twin(n) != n && SameCode(n, Twin(n))
    ensures UsesStandIn(Twin(n)) <==> n == INC_D
  {
    if n.Instruction1? {
      hide IsByteStep, SameCode, Twin;
      TwinOfStep(n);
    } else {
      hide EncodeR, Formats;
      EncodeRBytes('e');
      BareDecodes(RLCA);
    }
  }

  // Of all instructions, one is alone with its byte exactly when it is neither `rlca` nor an
  // 8-bit increment or decrement.
  lemma ToldApartIff(n: Node)
    requires IsEmitting(n)
    ensures (forall m | SameCode(n, m) :: m == n) <==> !SharesItsByte(n)
  {
    hide EmissionOf, Decodable, DecodeByte, IsByteStep;
    if SharesItsByte(n) {
      TwinSharesByte(n);
    } else {
      forall m | SameCode(n, m)
        ensures m == n
      {
        SameCodeSame(n, m);
      }
    }
  }

  lemma SameCodeSame(n: Node, m: Node)
    requires IsEmitting(n) && !SharesItsByte(n) && SameCode(n, m)
    ensures m == n
  {
    hide EmissionOf, Decodable, DecodeByte, IsByteStep;
    EmittingCases(n);
    EmittingCases(m);
    IncDIsByteStep();
    DecodableRoundTrip(n);
    DecodableCode(n);
    if IsByteStep(m) {
      ByteStepCode(m);
    } else {
      DecodableRoundTrip(m);
    }
  }

  lemma IncDIsByteStep()
    ensures IsByteStep(INC_D)
  {
  }

  // Of the instructions the parser makes, `inc d` is alone with its byte, too.
  predicate ToldApart(n: Node) {
    !SharesItsByte(n) || n == INC_D
  }

  lemma ParsedToldApartIff(n: Node)
    requires IsEmitting(n) && !UsesStandIn(n)
    ensures (forall m | SameCode(n, m) && !UsesStandIn(m) :: m == n) <==> ToldApart(n)
  {
    hide EmissionOf, IsByteStep, SameCode;
    if ToldApart(n) {
      forall m | SameCode(n, m) && !UsesStandIn(m)
        ensures m == n
      {
        ParsedSameCodeSame(n, m);
      }
    } else {
      TwinSharesByte(n);
    }
  }

  lemma ParsedSameCodeSame(n: Node, m: Node)
    requires IsEmitting(n) && ToldApart(n) && SameCode(n, m) && !UsesStandIn(m)
    ensures m == n
  {
    hide EmissionOf, Decodable, DecodeByte, IsByteStep;
    if !SharesItsByte(n) {
      SameCodeSame(n, m);
    } else {
      IncDDecodes();
      EmittingCases(m);
      if IsByteStep(m) {
        ByteStepCode(m);
      } else {
        DecodableCode(m);
      }
    }
  }

  predicate NoStandIns(nodes: seq<Node>) {
    forall n | n in nodes :: !UsesStandIn(n)
  }

  // The bytes of a program determine its emitting instructions, among all programs the parser
  // makes, exactly when each of them can be told apart.
  lemma CodeDeterminesIff(nodes: seq<Node>)
    requires NoStandIns(nodes)
    ensures (forall others | NoStandIns(others) && Code(others) == Code(nodes) :: Emitted(others) == Emitted(nodes))
            <==> forall n | n in Emitted(nodes) :: ToldApart(n)
  {
    hide IsEmitting, EmissionOf, ToldApart, Code, Emitted;
    CodeOfEmitted(nodes);
    if forall n | n in Emitted(nodes) :: ToldApart(n) {
      forall others | NoStandIns(others) && Code(others) == Code(nodes)
        ensures Emitted(others) == Emitted(nodes)
      {
        SameBytesSameInstructions(nodes, others);
      }
    } else {
      var k :| 0 <= k < |Emitted(nodes)| && !ToldApart(Emitted(nodes)[k]);
      TwinProgram(nodes, k);
    }
  }

  lemma SameBytesSameInstructions(nodes: seq<Node>, others: seq<Node>)
    requires NoStandIns(others) && Code(others) == Code(nodes)
    requires forall n | n in Emitted(nodes) :: ToldApart(n)
    ensures Emitted(others) == Emitted(nodes)
  {
    hide EmissionOf, ToldApart, Code, Emitted;
    CodeOfEmitted(nodes);
    CodeOfEmitted(others);
    forall k | 0 <= k < |Emitted(nodes)|
      ensures Emitted(others)[k] == Emitted(nodes)[k]
    {
      assert Emitted(others)[k] in Emitted(others) && Emitted(nodes)[k] in Emitted(nodes);
      ParsedSameCodeSame(Emitted(nodes)[k], Emitted(others)[k]);
    }
  }

  lemma {:induction false} EmittingProgram(nodes: seq<Node>)
    requires forall n | n in nodes :: IsEmitting(n)
    ensures Emitted(nodes) == nodes
  {
    hide IsEmitting;
    if nodes != [] {
      assert nodes[0] in nodes && forall n | n in nodes[1..] :: n in nodes;
      EmittingProgram(nodes[1..]);
      assert nodes == [nodes[0]] + nodes[1..];
    }
  }

  lemma TwinProgram(nodes: seq<Node>, k: nat)
    requires NoStandIns(nodes) && k < |Emitted(nodes)| && !ToldApart(Emitted(nodes)[k])
    ensures var others := Emitted(nodes)[k := Twin(Emitted(nodes)[k])];
      NoStandIns(others) && Code(others) == Code(nodes) && Emitted(others) != Emitted(nodes)
  {
    hide EmissionOf, Code, Emitted, Twin, IsByteStep;
    var emitted := Emitted(nodes);
    var n := emitted[k];
    var others := emitted[k := Twin(n)];
    CodeOfEmitted(nodes);
    TwinSharesByte(n);
    assert forall m | m in others :: m == Twin(n) || m in emitted;
    EmittingProgram(others);
    CodeOfEmitted(others);
    assert others[k] != emitted[k];
  }
}
