// Constant folding before assembling (Assembler::evaluate and Assembler::assemble).
module Optimizing {
  import opened Wrappers
  import opened Ast
  import opened Encoding
  import opened ElfModel
  import opened Assembling
  import F = Folding

  // What an instruction emits, if anything, does not depend on the expressions in it.
  lemma FoldingKeepsEmission(n: Node)
    requires IsInstructionNode(n) && F.Folded(n).Success?
    ensures IsInstructionNode(F.Folded(n).value)
    ensures EmissionOf(F.Folded(n).value) == EmissionOf(n)
  {
    hide Formats, EncodeNone, EncodeR, EncodeRA, EncodeD;
    if n.Instruction1? {
      FoldingKeepsRegisters(n.operand);
    }
  }

  lemma FoldingKeepsRegisters(e: Node)
    requires F.Folded(e).Success?
    ensures if e.Register? || e.DRegister? then F.Folded(e).value == e
            else !F.Folded(e).value.Register? && !F.Folded(e).value.DRegister?
  {
  }

  lemma FoldingKeepsEffect(n: Node)
    requires F.Folded(n).Success?
    ensures SameEffect(n, F.Folded(n).value)
  {
    hide EmissionOf;
    if IsInstructionNode(n) {
      FoldingKeepsEmission(n);
    }
  }

  // Wherever evaluation succeeds, the evaluated program assembles to the same object, and fails
  // at the same node with the same error, as the program itself.
  lemma FoldingKeepsObject(st: ElfState, root: Node)
    requires Wired(st) && root.Root? && F.Folded(root).Success?
    ensures F.Folded(root).value.Root?
    ensures var folded := F.Folded(root).value.children;
      && |folded| == |root.children|
      && Assembled(st, folded, |folded|) == Assembled(st, root.children, |folded|)
  {
    hide Assembled, SameEffect;
    var folded := F.Folded(root).value.children;
    forall i | 0 <= i < |folded|
      ensures SameEffect(root.children[i], folded[i])
    {
      F.FoldedAllAt(root, |folded|, i);
      FoldingKeepsEffect(root.children[i]);
    }
    SameEffectsSameObject(st, root.children, folded, |folded|);
  }
}
