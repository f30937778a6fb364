// The assembler's loop over a program and its search of the format table (src/assembler.cpp).
module Assembler {
  import opened Wrappers
  import opened Ast
  import opened Encoding
  import opened ElfModel
  import opened Assembling
  import opened Elf

  type Done = Result<(), AssembleError>

  function Rethrow(r: Result<(), ElfError>): Done {
    match r
    case Success(_) => Success(())
    case Failure(e) => Failure(ElfFailure(e))
  }

  class Assembler {

    // The outcome of one node: the specified object, or an error and the object as it was.
    static ghost predicate Follows(spec: Result<ElfState, AssembleError>, before: ElfState, elf: ELF, r: Done)
      reads elf, elf.sections
    {
      match spec
      case Success(st) => r == Success(()) && elf.State() == st
      case Failure(e) => r == Failure(e) && elf.State() == before
    }

    // Add the byte an encoder produced, or rethrow what it threw.
    static method Emit(elf: ELF, code: Option<byte>) returns (r: Done)
      requires elf.Valid()
      modifies elf, elf.sections
      ensures elf.Valid() && elf.sections == old(elf.sections)
      ensures Follows(match code case Some(b) => Lift(AddProgbits(old(elf.State()), [b]))
                                 case None => Failure(AssemblerException),
                      old(elf.State()), elf, r)
    {
      match code {
        case None =>
          r := Failure(AssemblerException);
        case Some(b) =>
          var added := elf.AddProgbits([b]);
          r := Rethrow(added);
      }
    }

    // No operand: the table has to list the bare form.
    static method AssembleInstruction0(elf: ELF, n: Node) returns (r: Done)
      requires n.Instruction0? && elf.Valid()
      modifies elf, elf.sections
      ensures elf.Valid() && elf.sections == old(elf.sections)
      ensures Follows(AssembleInstructionNode(old(elf.State()), n), old(elf.State()), elf, r)
    {
      hide Formats, EncodeNone, ElfModel.AddProgbits, Inv;
      match Formats(n.itype) {
        case None =>
          r := Success(());
        case Some(fmts) =>
          BareFormats(n.itype);
          if (NO_OPERAND, NO_OPERAND) in fmts {
            r := Emit(elf, EncodeNone(n.itype));
          } else {
            r := Failure(AssemblerException);
          }
      }
    }

    // One operand: the first table entry of a single operand of its kind decides.
    static method AssembleInstruction1(elf: ELF, n: Node) returns (r: Done)
      requires n.Instruction1? && elf.Valid()
      modifies elf, elf.sections
      ensures elf.Valid() && elf.sections == old(elf.sections)
      ensures Follows(AssembleInstructionNode(old(elf.State()), n), old(elf.State()), elf, r)
    {
      hide Formats, EncodeR, EncodeRA, EncodeD, EncodeI8, EncodeI16, ElfModel.AddProgbits, Inv;
      var t, operand := n.itype, n.operand;
      match Formats(t) {
        case None =>
          NoSingleFormats(t);
          return Failure(AssemblerException);
        case Some(fmts) =>
          for i := 0 to |fmts|
            invariant operand.Register? ==> (REGISTER_OPERAND, NO_OPERAND) !in fmts[..i]
            invariant operand.DRegister? ==> (DREGISTER_OPERAND, NO_OPERAND) !in fmts[..i]
            invariant elf.Valid() && elf.State() == old(elf.State()) && elf.sections == old(elf.sections)
          {
            var (first, second) := fmts[i];
            assert fmts[i] in fmts && fmts[..i + 1] == fmts[..i] + [fmts[i]];
            if second != NO_OPERAND {
            } else if operand.Register? && first == REGISTER_OPERAND {
              RegisterFormats(t);
              if IsStep(t) {
                r := Emit(elf, EncodeR(t, operand.reg));
                return;
              } else if t in {SUB, SBC, AND, XOR, OR, CP} {
                r := Emit(elf, EncodeRA(t, operand.reg));
                return;
              }
              return Failure(AssemblerException);
            } else if operand.DRegister? && first == DREGISTER_OPERAND {
              PairFormats(t);
              if t in {INC, DEC, POP, PUSH} {
                r := Emit(elf, EncodeD(t, operand.reg1, operand.reg2));
                return;
              }
              return Failure(AssemblerException);
            } else if operand.DRegister? && first == RADDR {
              // The table has no such entry.
              PairFormats(t);
              assert false;
            } else if operand.Number? && first == IMM8 {
              if t !in {JR, SUB, AND, OR, XOR, CP} {
                return Failure(AssemblerException);
              }
              // The bytes are encoded and dropped.
              var _ := [EncodeI8(t), Some(operand.value)];
            } else if operand.Number? && first == IMM16 {
              if t !in {JP, CALL} {
                return Failure(AssemblerException);
              }
              var _ := [EncodeI16(t), Some(operand.value / 256), Some(operand.value % 256)];
            }
          }
          assert fmts[..|fmts|] == fmts;
          RegisterFormats(t);
          PairFormats(t);
          r := Failure(AssemblerException);
      }
    }

    static method AssembleInstruction(elf: ELF, n: Node) returns (r: Done)
      requires IsInstructionNode(n) && elf.Valid()
      modifies elf, elf.sections
      ensures elf.Valid() && elf.sections == old(elf.sections)
      ensures n.Instruction2? ==> r == Success(()) && elf.State() == old(elf.State())
      ensures Follows(AssembleInstructionNode(old(elf.State()), n), old(elf.State()), elf, r)
    {
      match n {
        case Instruction0(_) => r := AssembleInstruction0(elf, n);
        case Instruction1(_, _) => r := AssembleInstruction1(elf, n);
        case Instruction2(_, _, _) => r := Success(());
      }
    }

    // One node of the program.
    static method AssembleOne(elf: ELF, n: Node) returns (r: Done)
      requires elf.Valid()
      modifies elf, elf.sections
      ensures elf.Valid() && elf.sections == old(elf.sections)
      ensures Follows(AssembleNode(old(elf.State()), n), old(elf.State()), elf, r)
    {
      hide Inv, EmissionOf, ElfModel.SetSection, ElfModel.AddSymbol, ElfModel.AddProgbits;
      if IsInstructionNode(n) {
        r := AssembleInstruction(elf, n);
      } else if n.Directive? {
        if n.dtype != SECTION {
          return Failure(AssemblerException);
        }
        if n.operands == [] {
          return Failure(MissingOperand);
        }
        var selected := elf.SetSection(n.operands[0]);
        r := Rethrow(selected);
      } else if n.Label? {
        var added := elf.AddSymbol(n.name, 0, 0, STT_NOTYPE, STB_GLOBAL, STV_DEFAULT);
        r := Rethrow(added);
      } else {
        r := Failure(AssemblerException);
      }
    }

    // The whole program: on failure the object keeps what the nodes before it made.
    static method Assemble(ast: Node, elf: ELF) returns (r: Done)
      requires ast.Root? && elf.Valid()
      modifies elf, elf.sections
      ensures elf.Valid() && elf.sections == old(elf.sections)
      ensures match Assembled(old(elf.State()), ast.children, |ast.children|)
              case Success(st) => r == Success(()) && elf.State() == st
              case Failure(stop) => r == Failure(stop.error) && elf.State() == stop.state
    {
      hide Inv, AssembleNode;
      InvIsWired(elf.State());
      for i := 0 to |ast.children|
        invariant elf.Valid() && elf.sections == old(elf.sections)
        invariant Assembled(old(elf.State()), ast.children, i) == Success(elf.State())
      {
        var one := AssembleOne(elf, ast.children[i]);
        if one.Failure? {
          StopSpreads(old(elf.State()), ast.children, i + 1, |ast.children|);
          return one;
        }
      }
      r := Success(());
    }
  }

  lemma NoSingleFormats(t: InstructionType)
    requires Formats(t).None?
    ensures !IsStep(t) && !IsAccumulatorOp(t) && !IsPairOp(t)
  {
    hide Formats;
    RegisterFormats(t);
    PairFormats(t);
  }
}
