// Constant folding over wrapping bytes (Assembler::evaluate and its helpers, src/assembler.cpp).
module Folding {
  import opened Wrappers
  import opened Ast

  // AssemblerException, and the undefined integer division by zero.
  datatype FoldError = AssemblerException | DivisionByZero

  type FoldResult = Result<Node, FoldError>

  // ---------- Bytes ----------

  // The conversion of an int to uint8_t.
  function Wrap(x: int): byte {
    x % 256
  }

  // C++ integer division truncates towards zero.
  function TruncatedQuotient(a: int, b: int): int
    requires b != 0
  {
    if (a >= 0) == (b > 0) then Abs(a) / Abs(b) else -(Abs(a) / Abs(b))
  }

  function Abs(a: int): nat {
    if a < 0 then -a else a
  }

  // A binary operator on bytes, computed in int and narrowed.
  function ByteOp(op: BinaryOpType, a: byte, b: byte): Option<byte>
    requires op != INVALID_BINARY
  {
    match op
    case PLUS => Some(Wrap(a + b))
    case MINUS => Some(Wrap(a - b))
    case MULT => Some(Wrap(a * b))
    case DIV => if b == 0 then None else Some(a / b)
  }

  function Negated(a: byte): byte {
    Wrap(0 - a)
  }

  // ---------- The folded tree ----------

  function FoldBinary(op: BinaryOpType, left: Node, right: Node): FoldResult
    requires op != INVALID_BINARY
  {
    if left.Number? && right.Number? then
      match ByteOp(op, left.value, right.value)
      case Some(v) => Success(Number(v))
      case None => Failure(DivisionByZero)
    else
      Success(BinaryOp(op, left, right))
  }

  function FoldUnary(operand: Node): FoldResult {
    if operand.Number? then Success(Number(Negated(operand.value))) else Success(UnaryOp(NEG, operand))
  }

  function Folded(e: Node): FoldResult
    decreases e, 0
  {
    match e
    case Root(children) =>
      var nodes :- FoldedAll(e, |children|);
      Success(Root(nodes))
    case Instruction0(_) => Success(e)
    case Instruction1(t, operand) =>
      var o :- Folded(operand);
      Success(Instruction1(t, o))
    case Instruction2(t, left, right) =>
      var l :- Folded(left);
      var r :- Folded(right);
      Success(Instruction2(t, l, r))
    case Register(_) => Success(e)
    case DRegister(_, _) => Success(e)
    case Label(_) => Success(e)
    case Number(_) => Success(e)
    case BinaryOp(op, left, right) =>
      if op == INVALID_BINARY then Failure(AssemblerException)
      else
        var l :- Folded(left);
        var r :- Folded(right);
        FoldBinary(op, l, r)
    case UnaryOp(op, operand) =>
      if op == INVALID_UNARY then Failure(AssemblerException)
      else
        var o :- Folded(operand);
        FoldUnary(o)
    case Directive(_, _) => Failure(AssemblerException)
    case InvalidNode => Failure(AssemblerException)
  }

  // The first `count` children of a root, folded in order.
  function FoldedAll(root: Node, count: nat): (r: Result<seq<Node>, FoldError>)
    requires root.Root? && count <= |root.children|
    ensures r.Success? ==> |r.value| == count
    decreases root, 0, count
  {
    if count == 0 then Success([])
    else
      var done :- FoldedAll(root, count - 1);
      var n :- Folded(root.children[count - 1]);
      Success(done + [n])
  }

  // ---------- The recursive evaluator ----------

  method Evaluate(node: Node) returns (r: FoldResult)
    ensures r == Folded(node)
    decreases node, 1
  {
    match node {
      case Root(children) =>
        var newChildren: seq<Node> := [];
        for i := 0 to |children|
          invariant FoldedAll(node, i) == Success(newChildren)
        {
          var n := Evaluate(node.children[i]);
          if n.Failure? {
            FailureSpreads(node, i + 1, |children|);
            return Failure(n.error);
          }
          newChildren := newChildren + [n.value];
        }
        r := Success(Root(newChildren));
      case Instruction0(_) => r := EvaluateInstruction(node);
      case Instruction1(_, _) => r := EvaluateInstruction(node);
      case Instruction2(_, _, _) => r := EvaluateInstruction(node);
      case Register(_) => r := Success(node);
      case DRegister(_, _) => r := Success(node);
      case Label(_) => r := Success(node);
      case Number(_) => r := Success(node);
      case BinaryOp(_, _, _) => r := EvaluateBinaryOp(node);
      case UnaryOp(_, _) => r := EvaluateUnaryOp(node);
      case _ => r := Failure(AssemblerException);
    }
  }

  method EvaluateInstruction(node: Node) returns (r: FoldResult)
    requires node.Instruction0? || node.Instruction1? || node.Instruction2?
    ensures r == Folded(node)
    decreases node, 0
  {
    match node {
      case Instruction0(_) =>
        r := Success(node);
      case Instruction1(t, operand) =>
        var o :- Evaluate(operand);
        r := Success(Instruction1(t, o));
      case Instruction2(t, left, right) =>
        var l :- Evaluate(left);
        var rr :- Evaluate(right);
        r := Success(Instruction2(t, l, rr));
    }
  }

  method EvaluateBinaryOp(node: Node) returns (r: FoldResult)
    requires node.BinaryOp?
    ensures r == Folded(node)
    decreases node, 0
  {
    if node.bop == INVALID_BINARY {
      return Failure(AssemblerException);
    }
    var vLeft :- Evaluate(node.left);
    var vRight :- Evaluate(node.right);
    assert Folded(node) == FoldBinary(node.bop, vLeft, vRight);
    hide Folded;
    if vLeft.Number? && vRight.Number? {
      var l: int, rr: int := vLeft.value, vRight.value;
      match node.bop {
        case PLUS => r := Success(Number(Wrap(l + rr)));
        case MINUS => r := Success(Number(Wrap(l - rr)));
        case MULT => r := Success(Number(Wrap(l * rr)));
        case DIV => r := if rr == 0 then Failure(DivisionByZero) else Success(Number(l / rr));
      }
    } else {
      r := Success(BinaryOp(node.bop, vLeft, vRight));
    }
  }

  method EvaluateUnaryOp(node: Node) returns (r: FoldResult)
    requires node.UnaryOp?
    ensures r == Folded(node)
    decreases node, 0
  {
    if node.uop == INVALID_UNARY {
      return Failure(AssemblerException);
    }
    var vRand :- Evaluate(node.operand);
    if vRand.Number? {
      r := Success(Number(Negated(vRand.value)));
    } else {
      r := Success(UnaryOp(NEG, vRand));
    }
  }

  lemma {:induction false} FailureSpreads(root: Node, i: nat, j: nat)
    requires root.Root? && i <= j <= |root.children| && FoldedAll(root, i).Failure?
    ensures FoldedAll(root, j) == FoldedAll(root, i)
    decreases j
  {
    if i < j {
      FailureSpreads(root, i, j - 1);
    }
  }

  lemma {:induction false} FoldedAllAt(root: Node, count: nat, k: nat)
    requires root.Root? && k < count <= |root.children| && FoldedAll(root, count).Success?
    ensures Folded(root.children[k]) == Success(FoldedAll(root, count).value[k])
    decreases count
  {
    if k < count - 1 {
      FoldedAllAt(root, count - 1, k);
    }
  }

  // ---------- Meaning ----------

  // An assignment of bytes to the leaves whose value is not known yet: labels and registers.
  type Env = Node -> byte

  // The 8-bit value of an expression, None where it is undefined.
  function Denote(e: Node, env: Env): Option<byte> {
    match e
    case Number(value) => Some(value)
    case Label(_) => Some(env(e))
    case Register(_) => Some(env(e))
    case DRegister(_, _) => Some(env(e))
    case UnaryOp(NEG, operand) =>
      (match Denote(operand, env)
       case Some(v) => Some(Negated(v))
       case None => None)
    case BinaryOp(op, left, right) =>
      if op == INVALID_BINARY then None
      else (match (Denote(left, env), Denote(right, env))
            case (Some(a), Some(b)) => ByteOp(op, a, b)
            case _ => None)
    case _ => None
  }

  // `f` can replace `e`: same value, same instruction types, same kinds of node except that an
  // operator may have become a number.
  predicate Equivalent(e: Node, f: Node, env: Env)
    decreases e
  {
    match e
    case Root(children) =>
      && f.Root? && |f.children| == |children|
      && forall i | 0 <= i < |children| :: Equivalent(children[i], f.children[i], env)
    case Instruction1(t, operand) =>
      f.Instruction1? && f.itype == t && Equivalent(operand, f.operand, env)
    case Instruction2(t, left, right) =>
      f.Instruction2? && f.itype == t && Equivalent(left, f.left, env) && Equivalent(right, f.right, env)
    case BinaryOp(op, _, _) =>
      (f.Number? || (f.BinaryOp? && f.bop == op)) && Denote(f, env) == Denote(e, env)
    case UnaryOp(op, _) =>
      (f.Number? || (f.UnaryOp? && f.uop == op)) && Denote(f, env) == Denote(e, env)
    case _ => f == e
  }

  lemma {:induction false} FoldingPreservesValue(e: Node, env: Env)
    requires Folded(e).Success?
    ensures !e.Root? && !e.Instruction1? && !e.Instruction2? ==> Denote(Folded(e).value, env) == Denote(e, env)
    ensures e.Root? || e.Instruction1? || e.Instruction2? ==> Denote(Folded(e).value, env) == Denote(e, env) == None
    decreases e
  {
    match e {
      case BinaryOp(_, left, right) =>
        FoldingPreservesValue(left, env);
        FoldingPreservesValue(right, env);
      case UnaryOp(_, operand) =>
        FoldingPreservesValue(operand, env);
      case _ =>
    }
  }

  // If evaluation succeeds, the result means the same under every assignment, division by zero
  // included.
  lemma {:induction false} FoldingPreservesMeaning(e: Node, env: Env)
    requires Folded(e).Success?
    ensures Equivalent(e, Folded(e).value, env)
    decreases e
  {
    match e {
      case Root(children) =>
        forall i | 0 <= i < |children|
          ensures Equivalent(children[i], Folded(e).value.children[i], env)
        {
          FoldedAllAt(e, |children|, i);
          FoldingPreservesMeaning(e.children[i], env);
        }
      case Instruction1(_, operand) =>
        FoldingPreservesMeaning(operand, env);
      case Instruction2(_, left, right) =>
        FoldingPreservesMeaning(left, env);
        FoldingPreservesMeaning(right, env);
      case BinaryOp(_, _, _) =>
        FoldingPreservesValue(e, env);
      case UnaryOp(_, _) =>
        FoldingPreservesValue(e, env);
      case _ =>
    }
  }

  // ---------- When evaluation fails ----------

  // No label or register anywhere: the value is known at assembly time.
  predicate Closed(e: Node) {
    match e
    case Number(_) => true
    case UnaryOp(NEG, operand) => Closed(operand)
    case BinaryOp(op, left, right) => op != INVALID_BINARY && Closed(left) && Closed(right)
    case _ => false
  }

  // A node no evaluation accepts: a directive, an invalid node or an invalid operator.
  predicate HasForeignNode(e: Node)
    decreases e
  {
    match e
    case Root(children) => exists i | 0 <= i < |children| :: HasForeignNode(children[i])
    case Instruction1(_, operand) => HasForeignNode(operand)
    case Instruction2(_, left, right) => HasForeignNode(left) || HasForeignNode(right)
    case BinaryOp(op, left, right) => op == INVALID_BINARY || HasForeignNode(left) || HasForeignNode(right)
    case UnaryOp(op, operand) => op == INVALID_UNARY || HasForeignNode(operand)
    case Directive(_, _) => true
    case InvalidNode => true
    case _ => false
  }

  const NOWHERE: Env := _ => 0

  // A closed subexpression without a value, that is one that divides by zero.
  predicate HasUndefinedPart(e: Node)
    decreases e
  {
    (Closed(e) && Denote(e, NOWHERE).None?)
    || match e
       case Root(children) => exists i | 0 <= i < |children| :: HasUndefinedPart(children[i])
       case Instruction1(_, operand) => HasUndefinedPart(operand)
       case Instruction2(_, left, right) => HasUndefinedPart(left) || HasUndefinedPart(right)
       case BinaryOp(_, left, right) => HasUndefinedPart(left) || HasUndefinedPart(right)
       case UnaryOp(_, operand) => HasUndefinedPart(operand)
       case _ => false
  }

  // A closed expression folds to its value, or fails where it has none.
  lemma {:induction false} ClosedFoldsToValue(e: Node, env: Env)
    requires Closed(e)
    ensures Folded(e) == match Denote(e, env)
                         case Some(v) => Success(Number(v))
                         case None => Failure(DivisionByZero)
    decreases e
  {
    match e {
      case UnaryOp(_, operand) =>
        ClosedFoldsToValue(operand, env);
      case BinaryOp(_, left, right) =>
        ClosedFoldsToValue(left, env);
        ClosedFoldsToValue(right, env);
      case _ =>
    }
  }

  lemma {:induction false} OnlyClosedFoldsToNumber(e: Node)
    requires Folded(e).Success? && Folded(e).value.Number?
    ensures Closed(e)
    decreases e
  {
    match e {
      case UnaryOp(_, operand) =>
        OnlyClosedFoldsToNumber(operand);
      case BinaryOp(_, left, right) =>
        OnlyClosedFoldsToNumber(left);
        OnlyClosedFoldsToNumber(right);
      case _ =>
    }
  }

  // A division by zero is noticed exactly when the dividend and the divisor are both closed.
  lemma BinaryFailure(op: BinaryOpType, left: Node, right: Node)
    requires op != INVALID_BINARY && Folded(left).Success? && Folded(right).Success?
    ensures var e := BinaryOp(op, left, right);
      Folded(e).Failure? <==> Closed(e) && Denote(e, NOWHERE).None?
  {
    var e := BinaryOp(op, left, right);
    if Closed(e) {
      ClosedFoldsToValue(e, NOWHERE);
    } else if Folded(left).value.Number? && Folded(right).value.Number? {
      OnlyClosedFoldsToNumber(left);
      OnlyClosedFoldsToNumber(right);
    }
  }

  // Evaluation fails exactly on trees that hold a foreign node or a closed division by zero.
  lemma {:induction false} FoldingFailsIff(e: Node)
    ensures Folded(e).Failure? <==> HasForeignNode(e) || HasUndefinedPart(e)
    decreases e
  {
    match e {
      case Root(children) =>
        RootFailsIff(e);
      case Instruction1(_, operand) =>
        FoldingFailsIff(operand);
      case Instruction2(_, left, right) =>
        FoldingFailsIff(left);
        FoldingFailsIff(right);
      case UnaryOp(op, operand) =>
        FoldingFailsIff(operand);
        if Closed(e) {
          ClosedFoldsToValue(operand, NOWHERE);
        }
      case BinaryOp(op, left, right) =>
        FoldingFailsIff(left);
        FoldingFailsIff(right);
        if Closed(left) {
          ClosedFoldsToValue(left, NOWHERE);
        }
        if Closed(right) {
          ClosedFoldsToValue(right, NOWHERE);
        }
        if op != INVALID_BINARY && Folded(left).Success? && Folded(right).Success? {
          BinaryFailure(op, left, right);
        }
      case _ =>
    }
  }

  lemma {:induction false} RootFailsIff(e: Node)
    requires e.Root?
    ensures Folded(e).Failure? <==> HasForeignNode(e) || HasUndefinedPart(e)
    decreases e, 0
  {
    forall i | 0 <= i < |e.children|
      ensures Folded(e.children[i]).Failure? <==> HasForeignNode(e.children[i]) || HasUndefinedPart(e.children[i])
    {
      FoldingFailsIff(e.children[i]);
    }
    FoldedAllFailsIff(e, |e.children|);
  }

  lemma {:induction false} FoldedAllFailsIff(root: Node, count: nat)
    requires root.Root? && count <= |root.children|
    ensures FoldedAll(root, count).Failure? <==> exists i | 0 <= i < count :: Folded(root.children[i]).Failure?
    decreases count
  {
    if count > 0 {
      FoldedAllFailsIff(root, count - 1);
    }
  }

  // ---------- Which error ----------

  // Everything in a tree that evaluation objects to, in the order it comes to it: operands from
  // left to right before their operator, but an invalid operator before its operands.
  function Faults(e: Node): seq<FoldError>
    decreases e, 0
  {
    match e
    case Root(children) => FaultsUpTo(e, |children|)
    case Instruction1(_, operand) => Faults(operand)
    case Instruction2(_, left, right) => Faults(left) + Faults(right)
    case BinaryOp(op, left, right) =>
      if op == INVALID_BINARY then [AssemblerException]
      else Faults(left) + Faults(right) + (if DividesByZero(op, left, right) then [DivisionByZero] else [])
    case UnaryOp(op, operand) => if op == INVALID_UNARY then [AssemblerException] else Faults(operand)
    case Directive(_, _) => [AssemblerException]
    case InvalidNode => [AssemblerException]
    case _ => []
  }

  function FaultsUpTo(root: Node, count: nat): seq<FoldError>
    requires root.Root? && count <= |root.children|
    decreases root, 0, count
  {
    if count == 0 then [] else FaultsUpTo(root, count - 1) + Faults(root.children[count - 1])
  }

  predicate DividesByZero(op: BinaryOpType, left: Node, right: Node) {
    op == DIV && Closed(left) && Closed(right) && Denote(left, NOWHERE).Some? && Denote(right, NOWHERE) == Some(0)
  }

  lemma DivisionFault(op: BinaryOpType, left: Node, right: Node)
    requires op != INVALID_BINARY && Folded(left).Success? && Folded(right).Success?
    ensures Folded(BinaryOp(op, left, right)).Failure? <==> DividesByZero(op, left, right)
    ensures DividesByZero(op, left, right) ==> Folded(BinaryOp(op, left, right)) == Failure(DivisionByZero)
  {
    BinaryFailure(op, left, right);
    if Closed(left) {
      ClosedFoldsToValue(left, NOWHERE);
    }
    if Closed(right) {
      ClosedFoldsToValue(right, NOWHERE);
    }
  }

  // Evaluation fails exactly if there is something to object to, and with the first of it.
  lemma {:induction false} FirstFaultIsTheError(e: Node)
    ensures Folded(e).Failure? <==> Faults(e) != []
    ensures Faults(e) != [] ==> Folded(e) == Failure(Faults(e)[0])
    decreases e, 0
  {
    hide DividesByZero;
    match e {
      case Root(children) =>
        FirstFaultOfChildren(e, |children|);
      case Instruction1(_, operand) =>
        FirstFaultIsTheError(operand);
      case Instruction2(_, left, right) =>
        FirstFaultIsTheError(left);
        FirstFaultIsTheError(right);
      case UnaryOp(_, operand) =>
        FirstFaultIsTheError(operand);
      case BinaryOp(op, left, right) =>
        FirstFaultIsTheError(left);
        FirstFaultIsTheError(right);
        if op != INVALID_BINARY && Folded(left).Success? && Folded(right).Success? {
          DivisionFault(op, left, right);
        }
      case _ =>
    }
  }

  lemma {:induction false} FirstFaultOfChildren(root: Node, count: nat)
    requires root.Root? && count <= |root.children|
    ensures FoldedAll(root, count).Failure? <==> FaultsUpTo(root, count) != []
    ensures FaultsUpTo(root, count) != [] ==> FoldedAll(root, count) == Failure(FaultsUpTo(root, count)[0])
    decreases root, 0, count
  {
    if count > 0 {
      FirstFaultOfChildren(root, count - 1);
      FirstFaultIsTheError(root.children[count - 1]);
    }
  }

  // ---------- Normal form ----------

  // Nothing left to compute.
  predicate NormalForm(e: Node)
    decreases e
  {
    match e
    case Root(children) => forall i | 0 <= i < |children| :: NormalForm(children[i])
    case Instruction1(_, operand) => NormalForm(operand)
    case Instruction2(_, left, right) => NormalForm(left) && NormalForm(right)
    case BinaryOp(_, left, right) => NormalForm(left) && NormalForm(right) && !(left.Number? && right.Number?)
    case UnaryOp(_, operand) => NormalForm(operand) && !operand.Number?
    case _ => true
  }

  lemma {:induction false} FoldedIsNormal(e: Node)
    requires Folded(e).Success?
    ensures NormalForm(Folded(e).value) && !HasForeignNode(Folded(e).value)
    decreases e
  {
    match e {
      case Root(children) =>
        forall i | 0 <= i < |children|
          ensures NormalForm(Folded(e).value.children[i]) && !HasForeignNode(Folded(e).value.children[i])
        {
          FoldedAllAt(e, |children|, i);
          FoldedIsNormal(e.children[i]);
        }
      case Instruction1(_, operand) =>
        FoldedIsNormal(operand);
      case Instruction2(_, left, right) =>
        FoldedIsNormal(left);
        FoldedIsNormal(right);
      case BinaryOp(_, left, right) =>
        FoldedIsNormal(left);
        FoldedIsNormal(right);
      case UnaryOp(_, operand) =>
        FoldedIsNormal(operand);
      case _ =>
    }
  }

  lemma {:induction false} NormalFormStays(e: Node)
    requires NormalForm(e) && !HasForeignNode(e)
    ensures Folded(e) == Success(e)
    decreases e, 1
  {
    match e {
      case Root(children) =>
        NormalChildrenStay(e, |children|);
        assert children[..|children|] == children;
      case Instruction1(_, operand) =>
        NormalFormStays(operand);
      case Instruction2(_, left, right) =>
        NormalFormStays(left);
        NormalFormStays(right);
      case BinaryOp(_, left, right) =>
        NormalFormStays(left);
        NormalFormStays(right);
      case UnaryOp(_, operand) =>
        NormalFormStays(operand);
      case _ =>
    }
  }

  lemma {:induction false} NormalChildrenStay(root: Node, count: nat)
    requires root.Root? && count <= |root.children| && NormalForm(root) && !HasForeignNode(root)
    ensures FoldedAll(root, count) == Success(root.children[..count])
    decreases root, 0, count
  {
    if count > 0 {
      NormalChildrenStay(root, count - 1);
      NormalFormStays(root.children[count - 1]);
      assert root.children[..count] == root.children[..count - 1] + [root.children[count - 1]];
    }
  }

  // Evaluating twice changes nothing more.
  lemma FoldingIsIdempotent(e: Node)
    requires Folded(e).Success?
    ensures Folded(Folded(e).value) == Folded(e)
  {
    FoldedIsNormal(e);
    NormalFormStays(Folded(e).value);
  }

  // ---------- Bytes against integers ----------

  // The same operator over unbounded integers, division truncating towards zero.
  function IntOp(op: BinaryOpType, a: int, b: int): Option<int>
    requires op != INVALID_BINARY
  {
    match op
    case PLUS => Some(a + b)
    case MINUS => Some(a - b)
    case MULT => Some(a * b)
    case DIV => if b == 0 then None else Some(TruncatedQuotient(a, b))
  }

  // The value of a closed expression over unbounded integers.
  function IntValue(e: Node): Option<int>
    requires Closed(e)
  {
    match e
    case Number(value) => Some(value)
    case UnaryOp(_, operand) =>
      (match IntValue(operand)
       case Some(a) => Some(-a)
       case None => None)
    case BinaryOp(op, left, right) =>
      (match (IntValue(left), IntValue(right))
       case (Some(a), Some(b)) => IntOp(op, a, b)
       case _ => None)
  }

  function Wrapped(v: Option<int>): Option<byte> {
    match v
    case Some(n) => Some(Wrap(n))
    case None => None
  }

  // Dividing the bytes of two integers gives the byte of their quotient.
  predicate QuotientWraps(a: int, b: int) {
    b != 0 ==> Wrap(b) != 0 && Wrap(TruncatedQuotient(a, b)) == Wrap(a) / Wrap(b)
  }

  // A condition on integers alone, to be checked before folding.
  predicate DivisionsWrap(e: Node)
    requires Closed(e)
  {
    match e
    case Number(_) => true
    case UnaryOp(_, operand) => DivisionsWrap(operand)
    case BinaryOp(op, left, right) =>
      && DivisionsWrap(left) && DivisionsWrap(right)
      && (op == DIV && IntValue(left).Some? && IntValue(right).Some? ==>
            QuotientWraps(IntValue(left).value, IntValue(right).value))
  }

  predicate InByteRange(v: Option<int>) {
    v.Some? ==> 0 <= v.value < 256
  }

  // Dividends and divisors are bytes over the integers too; nothing else is restricted.
  predicate DividesBytes(e: Node)
    requires Closed(e)
  {
    match e
    case Number(_) => true
    case UnaryOp(_, operand) => DividesBytes(operand)
    case BinaryOp(op, left, right) =>
      && DividesBytes(left) && DividesBytes(right)
      && (op == DIV ==> InByteRange(IntValue(left)) && InByteRange(IntValue(right)))
  }

  lemma WrapMultiple(a: int, k: int)
    ensures Wrap(a + 256 * k) == Wrap(a)
  {
  }

  lemma WrapByte(a: byte)
    ensures Wrap(a) == a
  {
  }

  lemma WrapSplits(a: int) returns (x: int, k: int)
    ensures x == Wrap(a) && a == x + 256 * k
  {
    x, k := Wrap(a), a / 256;
  }

  lemma NegatedIsModular(a: int)
    ensures Negated(Wrap(a)) == Wrap(-a)
  {
    var x, k := WrapSplits(a);
    WrapMultiple(-a, k);
    assert -a + 256 * k == 0 - x;
  }

  // Byte arithmetic is integer arithmetic modulo 256, division exactly where the quotient wraps.
  lemma ByteOpIsModular(op: BinaryOpType, a: int, b: int)
    requires op != INVALID_BINARY
    ensures ByteOp(op, Wrap(a), Wrap(b)) == Wrapped(IntOp(op, a, b)) <==> op == DIV ==> QuotientWraps(a, b)
  {
    var x, k := WrapSplits(a);
    var y, m := WrapSplits(b);
    match op {
      case PLUS =>
        WrapMultiple(x + y, k + m);
        assert a + b == x + y + 256 * (k + m);
      case MINUS =>
        WrapMultiple(x - y, k - m);
        assert a - b == x - y + 256 * (k - m);
      case MULT =>
        WrapMultiple(x * y, k * y + m * a);
        Product(a, b, x, y, k, m);
      case DIV =>
        DivisionIsModular(a, b);
    }
  }

  lemma DivisionIsModular(a: int, b: int)
    ensures ByteOp(DIV, Wrap(a), Wrap(b)) == Wrapped(IntOp(DIV, a, b)) <==> QuotientWraps(a, b)
  {
    hide TruncatedQuotient;
  }

  lemma Product(a: int, b: int, x: int, y: int, k: int, m: int)
    requires a == x + 256 * k && b == y + 256 * m
    ensures a * b == x * y + 256 * (k * y + m * a)
  {
    assert a * b == a * y + 256 * (m * a);
    assert a * y == x * y + 256 * (k * y);
  }

  // The integer value modulo 256 is what the expression folds to.
  predicate Agrees(e: Node)
    requires Closed(e)
  {
    Folded(e) == match Wrapped(IntValue(e))
                 case Some(v) => Success(Number(v))
                 case None => Failure(DivisionByZero)
  }

  // So it is for the expression and everything in it.
  predicate AgreesThroughout(e: Node)
    requires Closed(e)
  {
    && Agrees(e)
    && match e
       case Number(_) => true
       case UnaryOp(_, operand) => AgreesThroughout(operand)
       case BinaryOp(_, left, right) => AgreesThroughout(left) && AgreesThroughout(right)
  }

  lemma AgreesThroughoutAgrees(e: Node)
    requires Closed(e) && AgreesThroughout(e)
    ensures Agrees(e)
  {
  }

  lemma NegationAgrees(operand: Node)
    requires Closed(operand) && Agrees(operand)
    ensures Agrees(UnaryOp(NEG, operand))
  {
    hide Wrap, Negated;
    if IntValue(operand).Some? {
      NegatedIsModular(IntValue(operand).value);
    }
  }

  lemma BinaryAgrees(op: BinaryOpType, left: Node, right: Node)
    requires op != INVALID_BINARY && Closed(left) && Closed(right) && Agrees(left) && Agrees(right)
    ensures Agrees(BinaryOp(op, left, right)) <==>
              (op == DIV && IntValue(left).Some? && IntValue(right).Some? ==>
                 QuotientWraps(IntValue(left).value, IntValue(right).value))
  {
    hide Wrap, ByteOp, IntOp, QuotientWraps;
    if IntValue(left).Some? && IntValue(right).Some? {
      ByteOpIsModular(op, IntValue(left).value, IntValue(right).value);
    }
  }

  // An expression and all its parts fold to their integer values modulo 256, undefined division
  // included, exactly when the integer quotient wraps at every division.
  lemma {:induction false} AgreesThroughoutIff(e: Node)
    requires Closed(e)
    ensures AgreesThroughout(e) <==> DivisionsWrap(e)
    decreases e
  {
    hide Agrees, QuotientWraps, IntValue;
    match e {
      case Number(value) =>
        NumberAgrees(value);
      case UnaryOp(_, operand) =>
        AgreesThroughoutIff(operand);
        if AgreesThroughout(operand) {
          AgreesThroughoutAgrees(operand);
          NegationAgrees(operand);
        }
      case BinaryOp(op, left, right) =>
        AgreesThroughoutIff(left);
        AgreesThroughoutIff(right);
        if AgreesThroughout(left) && AgreesThroughout(right) {
          AgreesThroughoutAgrees(left);
          AgreesThroughoutAgrees(right);
          BinaryAgrees(op, left, right);
        }
    }
  }

  lemma NumberAgrees(value: byte)
    ensures Agrees(Number(value))
  {
    WrapByte(value);
  }

  // A closed expression folds to its integer value modulo 256, undefined division included,
  // if division only meets bytes.
  lemma FoldingIsModular(e: Node)
    requires Closed(e) && DividesBytes(e)
    ensures Folded(e) == match IntValue(e)
                         case Some(n) => Success(Number(Wrap(n)))
                         case None => Failure(DivisionByZero)
  {
    BytesDivisionsWrap(e);
    AgreesThroughoutIff(e);
    AgreesThroughoutAgrees(e);
  }

  lemma NonNegativeProduct(x: int, y: int)
    ensures 0 <= x && 0 <= y ==> 0 <= x * y
  {
  }

  lemma QuotientBounds(b: int, q: int, r: int)
    requires 0 <= r < b && 0 <= b * q + r
    ensures 0 <= q <= b * q + r
  {
    NonNegativeProduct(b, -q - 1);
    NonNegativeProduct(b - 1, q);
  }

  lemma QuotientOfBytes(a: int, b: int)
    requires 0 <= a < 256 && 0 < b < 256
    ensures 0 <= a / b < 256 && TruncatedQuotient(a, b) == a / b
  {
    QuotientBounds(b, a / b, a % b);
  }

  lemma BytesQuotientWraps(a: byte, b: byte)
    ensures QuotientWraps(a, b)
  {
    hide Wrap, TruncatedQuotient;
    WrapByte(a);
    WrapByte(b);
    if b != 0 {
      QuotientOfBytes(a, b);
      WrapByte(TruncatedQuotient(a, b));
    }
  }

  lemma {:induction false} BytesDivisionsWrap(e: Node)
    requires Closed(e) && DividesBytes(e)
    ensures DivisionsWrap(e)
    decreases e
  {
    hide QuotientWraps, IntOp;
    match e {
      case UnaryOp(_, operand) =>
        BytesDivisionsWrap(operand);
      case BinaryOp(op, left, right) =>
        BytesDivisionsWrap(left);
        BytesDivisionsWrap(right);
        if op == DIV && IntValue(left).Some? && IntValue(right).Some? {
          BytesQuotientWraps(IntValue(left).value, IntValue(right).value);
        }
      case _ =>
    }
  }

  predicate DivisionFree(e: Node)
    requires Closed(e)
  {
    match e
    case Number(_) => true
    case UnaryOp(_, operand) => DivisionFree(operand)
    case BinaryOp(op, left, right) => op != DIV && DivisionFree(left) && DivisionFree(right)
  }

  lemma {:induction false} DivisionFreeWraps(e: Node)
    requires Closed(e) && DivisionFree(e)
    ensures DivisionsWrap(e) && IntValue(e).Some?
    decreases e
  {
    match e {
      case UnaryOp(_, operand) =>
        DivisionFreeWraps(operand);
      case BinaryOp(_, left, right) =>
        DivisionFreeWraps(left);
        DivisionFreeWraps(right);
      case _ =>
    }
  }

  lemma DivisionFreeFolding(e: Node)
    requires Closed(e) && DivisionFree(e)
    ensures IntValue(e).Some? && Folded(e) == Success(Number(Wrap(IntValue(e).value)))
  {
    DivisionFreeWraps(e);
    AgreesThroughoutIff(e);
    AgreesThroughoutAgrees(e);
  }

  // Every intermediate integer fits a byte.
  predicate StaysInBytes(e: Node)
    requires Closed(e)
  {
    && InByteRange(IntValue(e))
    && match e
       case Number(_) => true
       case UnaryOp(_, operand) => StaysInBytes(operand)
       case BinaryOp(_, left, right) => StaysInBytes(left) && StaysInBytes(right)
  }

  lemma {:induction false} StaysInBytesDividesBytes(e: Node)
    requires Closed(e) && StaysInBytes(e)
    ensures DividesBytes(e)
    decreases e
  {
    match e {
      case UnaryOp(_, operand) =>
        StaysInBytesDividesBytes(operand);
      case BinaryOp(_, left, right) =>
        StaysInBytesDividesBytes(left);
        StaysInBytesDividesBytes(right);
      case _ =>
    }
  }

  // Then the folded byte is the integer value itself.
  lemma FoldingIsExact(e: Node)
    requires Closed(e) && StaysInBytes(e)
    ensures Folded(e) == match IntValue(e)
                         case Some(n) => Success(Number(n))
                         case None => Failure(DivisionByZero)
  {
    StaysInBytesDividesBytes(e);
    FoldingIsModular(e);
  }

  // Not every quotient wraps: (0 - 2) / 2 is -1, which is 255 modulo 256, but folds to 254 / 2.
  lemma DivisionBreaksModularity()
    ensures var e := BinaryOp(DIV, BinaryOp(MINUS, Number(0), Number(2)), Number(2));
      Closed(e) && IntValue(e) == Some(-1) && Folded(e) == Success(Number(127))
  {
    var difference := BinaryOp(MINUS, Number(0), Number(2));
    assert Folded(difference) == Success(Number(254));
    assert IntValue(difference) == Some(-2);
  }
}
