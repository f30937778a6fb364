// What assembling a program makes of an ELF object, node by node and section by section.
module Assembling {
  import opened Wrappers
  import opened Ast
  import opened Encoding
  import opened ElfModel

  datatype AssembleError = AssemblerException | ElfFailure(error: ElfError) | MissingOperand

  // Where assembling stopped, why, and the object it left.
  datatype Stop = Stop(at: nat, error: AssembleError, state: ElfState)

  function Lift(r: ElfResult): Result<ElfState, AssembleError> {
    match r
    case Success(st) => Success(st)
    case Failure(e) => Failure(ElfFailure(e))
  }

  function AssembleInstructionNode(st: ElfState, n: Node): Result<ElfState, AssembleError>
    requires Wired(st) && IsInstructionNode(n)
  {
    match EmissionOf(n)
    case Emits(code) => Lift(AddProgbits(st, [code]))
    case Silent => Success(st)
    case Unsupported => Failure(AssemblerException)
  }

  function AssembleNode(st: ElfState, n: Node): (r: Result<ElfState, AssembleError>)
    requires Wired(st)
    ensures r.Success? ==> Wired(r.value)
  {
    if IsInstructionNode(n) then AssembleInstructionNode(st, n)
    else match n
      case Directive(SECTION, args) =>
        if args == [] then Failure(MissingOperand) else Lift(SetSection(st, args[0]))
      case Label(name) => Lift(AddSymbol(st, name, 0, 0, STT_NOTYPE, STB_GLOBAL, STV_DEFAULT))
      case _ => Failure(AssemblerException)
  }

  // The first k nodes, in order, up to the first failure.
  function Assembled(st: ElfState, nodes: seq<Node>, k: nat): (r: Result<ElfState, Stop>)
    requires Wired(st) && k <= |nodes|
    ensures r.Success? ==> Wired(r.value)
  {
    if k == 0 then Success(st)
    else match Assembled(st, nodes, k - 1)
      case Failure(stop) => Failure(stop)
      case Success(before) =>
        match AssembleNode(before, nodes[k - 1])
        case Success(after) => Success(after)
        case Failure(e) => Failure(Stop(k - 1, e, before))
  }

  lemma AssembleNodeKeepsInv(st: ElfState, n: Node)
    requires Inv(st) && AssembleNode(st, n).Success?
    ensures Inv(AssembleNode(st, n).value)
  {
    hide Inv, EmissionOf, AddProgbits, SetSection, AddSymbol;
    if IsInstructionNode(n) {
      if EmissionOf(n).Emits? {
        AddProgbitsKeepsInv(st, [EmissionOf(n).code]);
      }
    } else if n.Directive? {
      SetSectionKeepsInv(st, n.operands[0]);
    } else {
      AddSymbolKeepsInv(st, n.name, 0, 0, STT_NOTYPE, STB_GLOBAL, STV_DEFAULT);
    }
  }

  // ---------- Failure ----------

  lemma {:induction false} StopSpreads(st: ElfState, nodes: seq<Node>, i: nat, k: nat)
    requires Wired(st) && i <= k <= |nodes| && Assembled(st, nodes, i).Failure?
    ensures Assembled(st, nodes, k) == Assembled(st, nodes, i)
    decreases k
  {
    hide AssembleNode;
    if i < k {
      StopSpreads(st, nodes, i, k - 1);
    }
  }

  // If assembling stops at a node, the object is exactly what assembling the nodes before it
  // successfully makes, and that node is the one that cannot be assembled there.
  lemma {:induction false} FailureIsPrefixConsistent(st: ElfState, nodes: seq<Node>, k: nat)
    requires Wired(st) && k <= |nodes| && Assembled(st, nodes, k).Failure?
    ensures var stop := Assembled(st, nodes, k).error;
      && stop.at < k
      && Assembled(st, nodes, stop.at) == Success(stop.state)
      && AssembleNode(stop.state, nodes[stop.at]) == Failure(stop.error)
    decreases k
  {
    hide AssembleNode;
    if Assembled(st, nodes, k - 1).Failure? {
      FailureIsPrefixConsistent(st, nodes, k - 1);
    }
  }

  // ---------- What a node does to the object ----------

  // Nothing but what it emits matters of an instruction; no expression, root or invalid node
  // can be assembled.
  predicate SameEffect(n: Node, m: Node) {
    || n == m
    || (IsInstructionNode(n) && IsInstructionNode(m) && EmissionOf(n) == EmissionOf(m))
    || (CannotBeAssembled(n) && CannotBeAssembled(m))
  }

  predicate CannotBeAssembled(n: Node) {
    !IsInstructionNode(n) && !n.Directive? && !n.Label?
  }

  lemma SameEffectSameState(st: ElfState, n: Node, m: Node)
    requires Wired(st) && SameEffect(n, m)
    ensures AssembleNode(st, n) == AssembleNode(st, m)
  {
    hide EmissionOf, AddProgbits, Wired;
  }

  // Programs that are node by node the same in effect leave the same object or the same error.
  lemma {:induction false} SameEffectsSameObject(st: ElfState, nodes: seq<Node>, others: seq<Node>, k: nat)
    requires Wired(st) && k <= |nodes| && k <= |others|
    requires forall i | 0 <= i < k :: SameEffect(nodes[i], others[i])
    ensures Assembled(st, nodes, k) == Assembled(st, others, k)
    decreases k
  {
    hide SameEffect, AssembleNode;
    if k > 0 {
      SameEffectsSameObject(st, nodes, others, k - 1);
      if Assembled(st, nodes, k - 1).Success? {
        SameEffectSameState(Assembled(st, nodes, k - 1).value, nodes[k - 1], others[k - 1]);
      }
    }
  }

  // ---------- Section by section ----------

  // The section named by the last directive before node k, or the one the object started in.
  function SectionAt(nodes: seq<Node>, k: nat, start: string): string
    requires k <= |nodes|
  {
    if k == 0 then start
    else if nodes[k - 1].Directive? && nodes[k - 1].operands != [] then nodes[k - 1].operands[0]
    else SectionAt(nodes, k - 1, start)
  }

  // The bytes of the instructions among the first k nodes that belong to one section.
  function CodeIn(nodes: seq<Node>, k: nat, start: string, section: string): seq<byte>
    requires k <= |nodes|
  {
    if k == 0 then []
    else CodeIn(nodes, k - 1, start, section)
         + (if SectionAt(nodes, k - 1, start) == section then CodeOf(nodes[k - 1]) else [])
  }

  function LabelNames(nodes: seq<Node>, k: nat): seq<string>
    requires k <= |nodes|
  {
    if k == 0 then []
    else LabelNames(nodes, k - 1) + (if nodes[k - 1].Label? then [nodes[k - 1].name] else [])
  }

  function AsSet(names: seq<string>): set<string> {
    set name | name in names
  }

  lemma AsSetPush(names: seq<string>, name: string)
    ensures AsSet(names + [name]) == AsSet(names) + {name}
    ensures AsSet(names + []) == AsSet(names)
  {
    assert names + [] == names;
  }

  function StartName(st: ElfState): string
    requires Wired(st)
  {
    st.sections[st.currSection].name
  }

  // Section i of `after`: as before, plus the code that belongs to it.
  predicate SectionGrown(st: ElfState, nodes: seq<Node>, k: nat, after: ElfState, i: nat)
    requires Wired(st) && k <= |nodes| && i < |st.sections| == |after.sections|
  {
    var s, t := st.sections[i], after.sections[i];
    && t.name == s.name
    && (s.contents.Progbits? ==>
          t == s.(contents := Progbits(s.contents.data + CodeIn(nodes, k, StartName(st), s.name))))
    && (s.contents.Strtab? ==> t.contents.Strtab? && (i != 1 ==> t == s))
    && (s.contents.Symtab? ==> t.contents.Symtab? && (i != 7 ==> t == s))
  }

  // What `after` has to be once the first k nodes are assembled into `st`.
  predicate Refines(st: ElfState, nodes: seq<Node>, k: nat, after: ElfState)
    requires Wired(st) && k <= |nodes|
  {
    && Inv(after)
    && |after.sections| == |st.sections|
    && (forall i | 0 <= i < |st.sections| :: SectionGrown(st, nodes, k, after, i))
    && StartName(after) == SectionAt(nodes, k, StartName(st))
    && Strings(after) == Strings(st) + LabelNames(nodes, k)
    && |Symbols(after)| == |Symbols(st)| + |LabelNames(nodes, k)|
    && after.symbolNames == st.symbolNames + AsSet(LabelNames(nodes, k))
    && after.header == st.header
  }

  lemma RefinesAtStart(st: ElfState, nodes: seq<Node>)
    requires Inv(st)
    ensures Refines(st, nodes, 0, st)
  {
    hide Inv;
    InvIsWired(st);
    assert forall i | 0 <= i < |st.sections| :: SectionGrown(st, nodes, 0, st, i);
    assert Strings(st) + [] == Strings(st);
  }

  lemma InvIsWired(st: ElfState)
    requires Inv(st)
    ensures Wired(st) && DistinctNames(st.sections)
  {
  }

  lemma EmittingStep(st: ElfState, nodes: seq<Node>, k: nat, before: ElfState)
    requires Wired(st) && k < |nodes| && Refines(st, nodes, k, before)
    requires IsInstructionNode(nodes[k]) && EmissionOf(nodes[k]).Emits?
    requires AssembleNode(before, nodes[k]).Success?
    ensures Refines(st, nodes, k + 1, AssembleNode(before, nodes[k]).value)
  {
    hide Inv, EmissionOf;
    AssembleNodeKeepsInv(before, nodes[k]);
    InvIsWired(before);
    var after := AssembleNode(before, nodes[k]).value;
    var c, code := before.currSection, [EmissionOf(nodes[k]).code];
    assert AddProgbits(before, code) == Success(after);
    var next := k + 1;
    forall i | 0 <= i < |st.sections|
      ensures SectionGrown(st, nodes, next, after, i)
    {
      assert SectionGrown(st, nodes, k, before, i);
      if i == c {
        GrownByCode(st.sections[i].contents, CodeIn(nodes, k, StartName(st), st.sections[i].name), code);
      } else {
        assert before.sections[i].name != before.sections[c].name;
        assert CodeIn(nodes, k, StartName(st), st.sections[i].name) + []
            == CodeIn(nodes, k, StartName(st), st.sections[i].name);
      }
    }
    assert LabelNames(nodes, k) + [] == LabelNames(nodes, k);
  }

  lemma GrownByCode(contents: Contents, sofar: seq<byte>, code: seq<byte>)
    ensures contents.Progbits? ==> contents.data + sofar + code == contents.data + (sofar + code)
  {
  }

  lemma NothingNew(nodes: seq<Node>, k: nat, start: string, section: string)
    requires k < |nodes| && CodeOf(nodes[k]) == []
    ensures CodeIn(nodes, k + 1, start, section) == CodeIn(nodes, k, start, section)
  {
  }

  lemma SilentStep(st: ElfState, nodes: seq<Node>, k: nat, before: ElfState)
    requires Wired(st) && k < |nodes| && Refines(st, nodes, k, before)
    requires IsInstructionNode(nodes[k]) && EmissionOf(nodes[k]).Silent?
    ensures Refines(st, nodes, k + 1, before)
  {
    hide Inv, EmissionOf;
    var next := k + 1;
    forall i | 0 <= i < |st.sections|
      ensures SectionGrown(st, nodes, next, before, i)
    {
      assert SectionGrown(st, nodes, k, before, i);
      NothingNew(nodes, k, StartName(st), st.sections[i].name);
    }
    assert LabelNames(nodes, k) + [] == LabelNames(nodes, k);
  }

  lemma DirectiveStep(st: ElfState, nodes: seq<Node>, k: nat, before: ElfState)
    requires Wired(st) && k < |nodes| && Refines(st, nodes, k, before)
    requires nodes[k].Directive? && AssembleNode(before, nodes[k]).Success?
    ensures Refines(st, nodes, k + 1, AssembleNode(before, nodes[k]).value)
  {
    hide Inv;
    AssembleNodeKeepsInv(before, nodes[k]);
    InvIsWired(before);
    var after := AssembleNode(before, nodes[k]).value;
    var next := k + 1;
    forall i | 0 <= i < |st.sections|
      ensures SectionGrown(st, nodes, next, after, i)
    {
      assert SectionGrown(st, nodes, k, before, i);
      NothingNew(nodes, k, StartName(st), st.sections[i].name);
    }
    assert LabelNames(nodes, k) + [] == LabelNames(nodes, k);
  }

  lemma LabelStep(st: ElfState, nodes: seq<Node>, k: nat, before: ElfState)
    requires Wired(st) && k < |nodes| && Refines(st, nodes, k, before)
    requires nodes[k].Label? && AssembleNode(before, nodes[k]).Success?
    ensures Refines(st, nodes, k + 1, AssembleNode(before, nodes[k]).value)
  {
    hide Inv;
    AssembleNodeKeepsInv(before, nodes[k]);
    InvIsWired(before);
    var after := AssembleNode(before, nodes[k]).value;
    var name := nodes[k].name;
    var next := k + 1;
    forall i | 0 <= i < |st.sections|
      ensures SectionGrown(st, nodes, next, after, i)
    {
      assert SectionGrown(st, nodes, k, before, i);
      NothingNew(nodes, k, StartName(st), st.sections[i].name);
    }
    assert LabelNames(nodes, k + 1) == LabelNames(nodes, k) + [name];
    AsSetPush(LabelNames(nodes, k), name);
    assert Strings(st) + LabelNames(nodes, k) + [name] == Strings(st) + LabelNames(nodes, k + 1);
  }

  lemma RefinesStep(st: ElfState, nodes: seq<Node>, k: nat, before: ElfState)
    requires Wired(st) && k < |nodes| && Refines(st, nodes, k, before)
    requires AssembleNode(before, nodes[k]).Success?
    ensures Refines(st, nodes, k + 1, AssembleNode(before, nodes[k]).value)
  {
    hide Refines, EmissionOf, AddProgbits, SetSection, AddSymbol;
    if IsInstructionNode(nodes[k]) {
      if EmissionOf(nodes[k]).Emits? {
        EmittingStep(st, nodes, k, before);
      } else {
        SilentStep(st, nodes, k, before);
      }
    } else if nodes[k].Directive? {
      DirectiveStep(st, nodes, k, before);
    } else {
      LabelStep(st, nodes, k, before);
    }
  }

  // On success every program section holds what it held, followed by the code of exactly those
  // instructions whose last section directive names it (or that precede any directive, for the
  // section the object started in), in program order; labels only add their names.
  lemma {:induction false} AssemblingRefines(st: ElfState, nodes: seq<Node>, k: nat)
    requires Inv(st) && k <= |nodes| && Assembled(st, nodes, k).Success?
    ensures Refines(st, nodes, k, Assembled(st, nodes, k).value)
    decreases k
  {
    hide Inv, Refines, AssembleNode;
    InvIsWired(st);
    if k == 0 {
      RefinesAtStart(st, nodes);
    } else {
      AssemblingRefines(st, nodes, k - 1);
      RefinesStep(st, nodes, k - 1, Assembled(st, nodes, k - 1).value);
    }
  }

  // ---------- Exactly when assembling succeeds ----------

  function FindSection(st: ElfState, name: string): Option<SectionState> {
    var i := IndexOf(st.sections, name);
    if i < |st.sections| then Some(st.sections[i]) else None
  }

  // What is wrong with node k in its place, if anything: a directive has to name an existing
  // section, a label has to be new, an instruction has to be supported and, if it emits, to
  // stand in a program section.
  function Objection(st: ElfState, nodes: seq<Node>, k: nat): Option<AssembleError>
    requires Wired(st) && k < |nodes|
  {
    var n := nodes[k];
    if IsInstructionNode(n) then
      if EmissionOf(n).Unsupported? then Some(AssemblerException)
      else if EmissionOf(n).Silent? || InProgramSection(st, nodes, k) then None
      else Some(ElfFailure(ELFException))
    else match n
      case Directive(SECTION, args) =>
        if args == [] then Some(MissingOperand)
        else if FindSection(st, args[0]).Some? then None else Some(ElfFailure(ELFException))
      case Label(name) =>
        if name !in st.symbolNames && name !in LabelNames(nodes, k) then None else Some(ElfFailure(ELFException))
      case _ => Some(AssemblerException)
  }

  predicate InProgramSection(st: ElfState, nodes: seq<Node>, k: nat)
    requires Wired(st) && k < |nodes|
  {
    var section := FindSection(st, SectionAt(nodes, k, StartName(st)));
    section.Some? && section.value.contents.Progbits?
  }

  predicate Acceptable(st: ElfState, nodes: seq<Node>, k: nat)
    requires Wired(st) && k < |nodes|
  {
    Objection(st, nodes, k).None?
  }

  lemma IndexByName(sections: seq<SectionState>, i: nat)
    requires i < |sections| && DistinctNames(sections)
    ensures IndexOf(sections, sections[i].name) == i
  {
  }

  lemma SameIndex(s: seq<SectionState>, t: seq<SectionState>, name: string)
    requires |s| == |t| && forall i | 0 <= i < |s| :: s[i].name == t[i].name
    ensures IndexOf(s, name) == IndexOf(t, name)
  {
  }

  lemma SameNames(st: ElfState, nodes: seq<Node>, k: nat, after: ElfState)
    requires Wired(st) && k <= |nodes| && Refines(st, nodes, k, after)
    ensures |after.sections| == |st.sections|
    ensures forall i | 0 <= i < |st.sections| ::
              after.sections[i].name == st.sections[i].name
              && (after.sections[i].contents.Progbits? <==> st.sections[i].contents.Progbits?)
  {
    hide Inv, CodeIn;
    forall i | 0 <= i < |st.sections|
      ensures after.sections[i].name == st.sections[i].name
      ensures after.sections[i].contents.Progbits? <==> st.sections[i].contents.Progbits?
    {
      assert SectionGrown(st, nodes, k, after, i);
    }
  }

  // The symbols of the labels among the first k nodes: global, untyped, of value 0, named by the
  // strings that follow the strings of `st`, each in the section that was current at its label.
  function LabelSymbols(st: ElfState, nodes: seq<Node>, k: nat): seq<Sym>
    requires Wired(st) && k <= |nodes|
  {
    if k == 0 then []
    else LabelSymbols(st, nodes, k - 1)
         + (if nodes[k - 1].Label?
            then [Sym(W32(|Strings(st)| + |LabelNames(nodes, k - 1)|), 0, 0, 0x10, 0,
                      IndexOf(st.sections, SectionAt(nodes, k - 1, StartName(st))) % 256)]
            else [])
  }

  lemma CurrentSectionAt(st: ElfState, nodes: seq<Node>, k: nat, before: ElfState)
    requires Wired(st) && k <= |nodes| && Refines(st, nodes, k, before)
    ensures before.currSection == IndexOf(st.sections, SectionAt(nodes, k, StartName(st)))
    ensures Wired(before) && |Strings(before)| == |Strings(st)| + |LabelNames(nodes, k)|
  {
    hide IndexOf, SectionAt, LabelNames, Inv, DistinctNames;
    SameNames(st, nodes, k, before);
    InvIsWired(before);
    IndexByName(before.sections, before.currSection);
    SameIndex(before.sections, st.sections, StartName(before));
  }

  lemma LabelPushesSymbol(before: ElfState, n: Node)
    requires Wired(before) && n.Label? && AssembleNode(before, n).Success?
    ensures Symbols(AssembleNode(before, n).value)
         == Symbols(before) + [Sym(W32(|Strings(before)|), 0, 0, 0x10, 0, before.currSection % 256)]
  {
  }

  lemma LabelMakesSymbol(st: ElfState, nodes: seq<Node>, k: nat, before: ElfState)
    requires Wired(st) && k < |nodes| && Refines(st, nodes, k, before)
    requires nodes[k].Label? && AssembleNode(before, nodes[k]).Success?
    ensures Wired(before)
    ensures Symbols(AssembleNode(before, nodes[k]).value)
         == Symbols(before) + [Sym(W32(|Strings(st)| + |LabelNames(nodes, k)|), 0, 0, 0x10, 0,
                                   IndexOf(st.sections, SectionAt(nodes, k, StartName(st))) % 256)]
  {
    hide Refines, AssembleNode, Symbols, Strings, LabelNames, IndexOf, SectionAt;
    CurrentSectionAt(st, nodes, k, before);
    LabelPushesSymbol(before, nodes[k]);
  }

  // Only labels touch the string table and the symbol table.
  lemma OthersKeepTables(before: ElfState, n: Node)
    requires Inv(before) && !n.Label? && AssembleNode(before, n).Success?
    ensures Wired(before)
    ensures AssembleNode(before, n).value.sections[1] == before.sections[1]
    ensures AssembleNode(before, n).value.sections[7] == before.sections[7]
  {
    hide EmissionOf, DistinctNames, NamesListed, SymbolTableKept;
  }

  // On success the symbol table has grown by exactly the labels' symbols, in program order.
  lemma {:induction false} LabelsBecomeSymbols(st: ElfState, nodes: seq<Node>, k: nat)
    requires Inv(st) && k <= |nodes| && Assembled(st, nodes, k).Success?
    ensures Wired(st)
    ensures Symbols(Assembled(st, nodes, k).value) == Symbols(st) + LabelSymbols(st, nodes, k)
    decreases k
  {
    hide Inv, Refines, AssembleNode, IndexOf, SectionAt;
    InvIsWired(st);
    if k == 0 {
      assert Symbols(st) + [] == Symbols(st);
    } else {
      LabelsBecomeSymbols(st, nodes, k - 1);
      AssemblingRefines(st, nodes, k - 1);
      var before := Assembled(st, nodes, k - 1).value;
      if nodes[k - 1].Label? {
        LabelMakesSymbol(st, nodes, k - 1, before);
      } else {
        RefinedKeepsInv(st, nodes, k - 1, before);
        OthersKeepTables(before, nodes[k - 1]);
        assert LabelSymbols(st, nodes, k - 1) + [] == LabelSymbols(st, nodes, k - 1);
      }
    }
  }

  lemma {:induction false} NoLabelsKeepTables(st: ElfState, nodes: seq<Node>, k: nat)
    requires Inv(st) && k <= |nodes| && Assembled(st, nodes, k).Success?
    requires forall i | 0 <= i < k :: !nodes[i].Label?
    ensures Assembled(st, nodes, k).value.sections[1] == st.sections[1]
    ensures Assembled(st, nodes, k).value.sections[7] == st.sections[7]
    decreases k
  {
    hide Inv, Refines, AssembleNode;
    InvIsWired(st);
    if k > 0 {
      NoLabelsKeepTables(st, nodes, k - 1);
      AssemblingRefines(st, nodes, k - 1);
      var before := Assembled(st, nodes, k - 1).value;
      RefinedKeepsInv(st, nodes, k - 1, before);
      OthersKeepTables(before, nodes[k - 1]);
    }
  }

  // The two programs put the same code into every program section.
  predicate PlaceSameCode(st: ElfState, nodes: seq<Node>, others: seq<Node>)
    requires Wired(st)
  {
    forall i | 0 <= i < |st.sections| && st.sections[i].contents.Progbits? ::
      CodeIn(nodes, |nodes|, StartName(st), st.sections[i].name)
      == CodeIn(others, |others|, StartName(st), st.sections[i].name)
  }

  predicate NoLabels(nodes: seq<Node>) {
    forall i | 0 <= i < |nodes| :: !nodes[i].Label?
  }

  lemma RefinedShape(st: ElfState, nodes: seq<Node>, k: nat, after: ElfState)
    requires Wired(st) && k <= |nodes| && Refines(st, nodes, k, after)
    ensures |after.sections| == |st.sections| && after.header == st.header
    ensures forall i | 0 <= i < |st.sections| :: SectionGrown(st, nodes, k, after, i)
  {
    hide Inv, SectionGrown;
  }

  lemma SameCodeSameSections(st: ElfState, nodes: seq<Node>, others: seq<Node>, s: ElfState, t: ElfState)
    requires Wired(st) && Refines(st, nodes, |nodes|, s) && Refines(st, others, |others|, t)
    requires |s.sections| >= 8 && |t.sections| >= 8
    requires s.sections[1] == t.sections[1] && s.sections[7] == t.sections[7]
    requires PlaceSameCode(st, nodes, others)
    ensures s.sections == t.sections && s.header == t.header
  {
    hide Inv, CodeIn, Refines;
    RefinedShape(st, nodes, |nodes|, s);
    RefinedShape(st, others, |others|, t);
    forall i | 0 <= i < |st.sections|
      ensures s.sections[i] == t.sections[i]
    {
      assert SectionGrown(st, nodes, |nodes|, s, i) && SectionGrown(st, others, |others|, t, i);
    }
  }

  // Two programs without labels leave the same sections and file header if they place the same
  // code.
  lemma SameCodeSameObject(st: ElfState, nodes: seq<Node>, others: seq<Node>)
    requires Inv(st) && NoLabels(nodes) && NoLabels(others) && PlaceSameCode(st, nodes, others)
    requires Assembled(st, nodes, |nodes|).Success? && Assembled(st, others, |others|).Success?
    ensures Wired(st)
    ensures var s, t := Assembled(st, nodes, |nodes|).value, Assembled(st, others, |others|).value;
      s.sections == t.sections && s.header == t.header
  {
    hide Inv, Assembled, Refines, PlaceSameCode;
    InvIsWired(st);
    AssemblingRefines(st, nodes, |nodes|);
    AssemblingRefines(st, others, |others|);
    NoLabelsKeepTables(st, nodes, |nodes|);
    NoLabelsKeepTables(st, others, |others|);
    SameCodeSameSections(st, nodes, others,
                         Assembled(st, nodes, |nodes|).value, Assembled(st, others, |others|).value);
  }

  lemma RefinedKeepsInv(st: ElfState, nodes: seq<Node>, k: nat, after: ElfState)
    requires Wired(st) && k <= |nodes| && Refines(st, nodes, k, after)
    ensures Inv(after)
  {
    hide Inv, SectionGrown;
  }

  lemma InstructionMeetsObjection(st: ElfState, nodes: seq<Node>, k: nat, before: ElfState)
    requires Inv(st) && k < |nodes| && Refines(st, nodes, k, before) && IsInstructionNode(nodes[k])
    ensures match Objection(st, nodes, k)
            case None => AssembleNode(before, nodes[k]).Success?
            case Some(error) => AssembleNode(before, nodes[k]) == Failure(error)
  {
    hide Inv, EmissionOf;
    InvIsWired(st);
    InvIsWired(before);
    SameNames(st, nodes, k, before);
    var c := before.currSection;
    SameIndex(st.sections, before.sections, before.sections[c].name);
    IndexByName(before.sections, c);
  }

  lemma DirectiveMeetsObjection(st: ElfState, nodes: seq<Node>, k: nat, before: ElfState)
    requires Inv(st) && k < |nodes| && Refines(st, nodes, k, before) && nodes[k].Directive?
    ensures match Objection(st, nodes, k)
            case None => AssembleNode(before, nodes[k]).Success?
            case Some(error) => AssembleNode(before, nodes[k]) == Failure(error)
  {
    hide Inv, EmissionOf, LabelNames;
    InvIsWired(st);
    SameNames(st, nodes, k, before);
    if nodes[k].operands != [] {
      SameIndex(st.sections, before.sections, nodes[k].operands[0]);
    }
  }

  lemma LabelMeetsObjection(st: ElfState, nodes: seq<Node>, k: nat, before: ElfState)
    requires Inv(st) && k < |nodes| && Refines(st, nodes, k, before) && nodes[k].Label?
    ensures match Objection(st, nodes, k)
            case None => AssembleNode(before, nodes[k]).Success?
            case Some(error) => AssembleNode(before, nodes[k]) == Failure(error)
  {
    hide Inv, EmissionOf, SectionGrown, LabelNames;
    InvIsWired(st);
    InvIsWired(before);
  }

  lemma NodeMeetsObjection(st: ElfState, nodes: seq<Node>, k: nat, before: ElfState)
    requires Inv(st) && k < |nodes| && Refines(st, nodes, k, before)
    ensures match Objection(st, nodes, k)
            case None => AssembleNode(before, nodes[k]).Success?
            case Some(error) => AssembleNode(before, nodes[k]) == Failure(error)
  {
    InvIsWired(st);
    hide Refines, Inv, SetSection, AddSymbol, FindSection, InProgramSection;
    if IsInstructionNode(nodes[k]) {
      InstructionMeetsObjection(st, nodes, k, before);
    } else if nodes[k].Directive? {
      DirectiveMeetsObjection(st, nodes, k, before);
    } else if nodes[k].Label? {
      LabelMeetsObjection(st, nodes, k, before);
    }
  }

  // Assembling succeeds exactly when every node is acceptable in its place.
  lemma {:induction false} AssemblingSucceedsIff(st: ElfState, nodes: seq<Node>, k: nat)
    requires Inv(st) && k <= |nodes|
    ensures Wired(st)
    ensures Assembled(st, nodes, k).Success? <==> forall j | 0 <= j < k :: Acceptable(st, nodes, j)
    decreases k
  {
    hide Inv, Refines, AssembleNode, Objection;
    InvIsWired(st);
    if k > 0 {
      AssemblingSucceedsIff(st, nodes, k - 1);
      assert Assembled(st, nodes, k).Success? ==> Assembled(st, nodes, k - 1).Success?;
      if Assembled(st, nodes, k - 1).Success? {
        var before := Assembled(st, nodes, k - 1).value;
        assert Assembled(st, nodes, k).Success? <==> AssembleNode(before, nodes[k - 1]).Success?;
        AssemblingRefines(st, nodes, k - 1);
        NodeMeetsObjection(st, nodes, k - 1, before);
        assert Acceptable(st, nodes, k - 1) <==> AssembleNode(before, nodes[k - 1]).Success?;
      }
    }
  }

  // Where assembling stops, everything before is acceptable, and the error is the objection to
  // the node it stops at.
  lemma {:induction false} AssemblingStopsAtObjection(st: ElfState, nodes: seq<Node>, k: nat)
    requires Inv(st) && k <= |nodes|
    requires Wired(st) && Assembled(st, nodes, k).Failure?
    ensures var stop := Assembled(st, nodes, k).error;
      && stop.at < k
      && Objection(st, nodes, stop.at) == Some(stop.error)
      && forall j | 0 <= j < stop.at :: Acceptable(st, nodes, j)
    decreases k
  {
    hide Inv, Refines, AssembleNode, Objection;
    if Assembled(st, nodes, k - 1).Failure? {
      AssemblingStopsAtObjection(st, nodes, k - 1);
    } else {
      AssemblingSucceedsIff(st, nodes, k - 1);
      AssemblingRefines(st, nodes, k - 1);
      NodeMeetsObjection(st, nodes, k - 1, Assembled(st, nodes, k - 1).value);
    }
  }

  // ---------- Two operands ----------

  // The program without its two-operand instructions.
  function WithoutPairs(nodes: seq<Node>): seq<Node> {
    if nodes == [] then []
    else WithoutPairs(nodes[..|nodes| - 1])
         + (if nodes[|nodes| - 1].Instruction2? then [] else [nodes[|nodes| - 1]])
  }

  lemma PairsDoNothing(st: ElfState, n: Node)
    requires Wired(st) && n.Instruction2?
    ensures AssembleNode(st, n) == Success(st)
  {
  }

  // What assembling leaves, and what it complains of, wherever that is.
  predicate SameOutcome(r: Result<ElfState, Stop>, s: Result<ElfState, Stop>) {
    match (r, s)
    case (Success(a), Success(b)) => a == b
    case (Failure(a), Failure(b)) => a.error == b.error && a.state == b.state
    case _ => false
  }

  // Two-operand instructions might as well not be there.
  lemma {:induction false} PairsDropped(st: ElfState, nodes: seq<Node>)
    requires Wired(st)
    ensures SameOutcome(Assembled(st, nodes, |nodes|), Assembled(st, WithoutPairs(nodes), |WithoutPairs(nodes)|))
    decreases |nodes|
  {
    hide AssembleNode, SameEffect;
    if nodes != [] {
      var k := |nodes| - 1;
      var init, kept := nodes[..k], WithoutPairs(nodes[..k]);
      PairsDropped(st, init);
      SamePrefix(st, nodes, init, k);
      if nodes[k].Instruction2? {
        assert WithoutPairs(nodes) == kept + [] == kept;
        if Assembled(st, init, k).Success? {
          PairsDoNothing(Assembled(st, init, k).value, nodes[k]);
        }
      } else {
        assert WithoutPairs(nodes) == kept + [nodes[k]];
        SamePrefix(st, kept + [nodes[k]], kept, |kept|);
      }
    }
  }

  lemma SamePrefix(st: ElfState, nodes: seq<Node>, others: seq<Node>, k: nat)
    requires Wired(st) && k <= |nodes| && k <= |others| && nodes[..k] == others[..k]
    ensures Assembled(st, nodes, k) == Assembled(st, others, k)
  {
    forall i | 0 <= i < k
      ensures SameEffect(nodes[i], others[i])
    {
      assert nodes[i] == nodes[..k][i] == others[..k][i] == others[i];
    }
    SameEffectsSameObject(st, nodes, others, k);
  }
}
