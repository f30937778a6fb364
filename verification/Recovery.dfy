// What an object file tells of the source text it was made from.
module Recovery {
  import opened Wrappers
  import opened Ast
  import opened Grammar
  import opened SourceText
  import opened Encoding
  import opened ElfModel
  import opened ElfImage
  import opened Assembling
  import opened EndToEnd

  // ---------- When two texts give the same file ----------

  lemma InitialSections(shstrndx: uint16, i: nat)
    requires i < 8
    ensures var section := Initial(shstrndx).sections[i];
      section.name == DEFAULT_NAMES[i] && (section.contents.Progbits? <==> IsProgramSection(i))
  {
    DefaultNames(i);
  }

  lemma SourceHasNoLabels(nodes: seq<Node>)
    requires IsSource(nodes)
    ensures NoLabels(nodes)
  {
    hide IsSourceLine;
    forall i | 0 <= i < |nodes|
      ensures !nodes[i].Label?
    {
      assert nodes[i] in nodes;
      SourceLineIsNoLabel(nodes[i]);
    }
  }

  lemma SourceLineIsNoLabel(n: Node)
    requires IsSourceLine(n)
    ensures !n.Label?
  {
  }

  lemma SameSectionsSameImage(s: ElfState, t: ElfState)
    requires s.sections == t.sections && s.header == t.header
    ensures Image(s) == Image(t)
  {
  }

  predicate SameCodeEverywhere(nodes: seq<Node>, others: seq<Node>) {
    forall i | 0 <= i < 8 && IsProgramSection(i) ::
      CodeIn(nodes, |nodes|, "shstrtab", DEFAULT_NAMES[i]) == CodeIn(others, |others|, "shstrtab", DEFAULT_NAMES[i])
  }

  lemma SameCodeSameFile(lines: seq<string>, others: seq<string>, shstrndx: uint16)
    requires Compile(lines, shstrndx).Success? && Compile(others, shstrndx).Success?
    requires SameCodeEverywhere(ParseText(lines).value.children, ParseText(others).value.children)
    ensures Compile(lines, shstrndx) == Compile(others, shstrndx)
  {
    hide Inv, Assembled, Image, ParseText, IsSource, CodeIn, Initial;
    var st := Initial(shstrndx);
    InitialInv(shstrndx);
    InvIsWired(st);
    ParsedIsSource(lines);
    ParsedIsSource(others);
    var a, b := ParseText(lines).value.children, ParseText(others).value.children;
    SourceHasNoLabels(a);
    SourceHasNoLabels(b);
    InitialShape(shstrndx);
    forall i | 0 <= i < |st.sections| && st.sections[i].contents.Progbits?
      ensures CodeIn(a, |a|, StartName(st), st.sections[i].name) == CodeIn(b, |b|, StartName(st), st.sections[i].name)
    {
      InitialSections(shstrndx, i);
    }
    SameCodeSameObject(st, a, b);
    SameSectionsSameImage(Assembled(st, a, |a|).value, Assembled(st, b, |b|).value);
  }

  lemma InitialShape(shstrndx: uint16)
    ensures |Initial(shstrndx).sections| == 8
    ensures Wired(Initial(shstrndx)) && StartName(Initial(shstrndx)) == "shstrtab"
  {
    InitialInv(shstrndx);
    InvIsWired(Initial(shstrndx));
    InitialSections(shstrndx, 0);
  }

  // Two texts that compile give the same file exactly when they put the same code into each
  // program section.
  lemma SameFileIff(lines: seq<string>, others: seq<string>, shstrndx: uint16)
    requires Compile(lines, shstrndx).Success? && Compile(others, shstrndx).Success?
    requires |Compile(lines, shstrndx).value| < TWO_TO_THE_32
    ensures ParseText(lines).Success? && ParseText(lines).value.Root?
    ensures ParseText(others).Success? && ParseText(others).value.Root?
    ensures Compile(lines, shstrndx) == Compile(others, shstrndx)
            <==> SameCodeEverywhere(ParseText(lines).value.children, ParseText(others).value.children)
  {
    CompilesIff(lines, shstrndx);
    CompilesIff(others, shstrndx);
    hide Compile, ParseText, CodeIn;
    var a, b := ParseText(lines).value.children, ParseText(others).value.children;
    if SameCodeEverywhere(a, b) {
      SameCodeSameFile(lines, others, shstrndx);
    } else if Compile(lines, shstrndx) == Compile(others, shstrndx) {
      forall i | 0 <= i < 8 && IsProgramSection(i)
        ensures CodeIn(a, |a|, "shstrtab", DEFAULT_NAMES[i]) == CodeIn(b, |b|, "shstrtab", DEFAULT_NAMES[i])
      {
        CompiledSectionsHoldTheirCode(lines, shstrndx, i);
        CompiledSectionsHoldTheirCode(others, shstrndx, i);
      }
      assert false;
    }
  }

  // ---------- When the file gives the instructions back ----------

  lemma {:induction false} EmittedConcat(a: seq<Node>, b: seq<Node>)
    ensures Emitted(a + b) == Emitted(a) + Emitted(b)
  {
    hide EmittedOf;
    if a == [] {
      assert a + b == b && Emitted(a) + Emitted(b) == Emitted(b);
    } else {
      assert (a + b)[1..] == a[1..] + b;
      EmittedConcat(a[1..], b);
    }
  }

  lemma EmittedOne(n: Node)
    ensures Emitted([n]) == EmittedOf(n)
  {
    hide EmittedOf;
    assert [n][1..] == [] && Emitted([]) == [];
  }

  lemma {:induction false} PlaceOf(nodes: seq<Node>, k: nat, start: string, section: string, n: Node) returns (j: nat)
    requires k <= |nodes| && n in InstructionsIn(nodes, k, start, section)
    ensures j < k && nodes[j] == n && IsInstructionNode(n) && SectionAt(nodes, j, start) == section
    decreases k
  {
    hide SectionAt;
    if n in InstructionsIn(nodes, k - 1, start, section) {
      j := PlaceOf(nodes, k - 1, start, section, n);
    } else {
      j := k - 1;
    }
  }

  // Exchanging an instruction for another leaves every node in its section.
  lemma {:induction false} SameSectionAt(nodes: seq<Node>, j: nat, m: Node, k: nat, start: string)
    requires j < |nodes| && k <= |nodes| && IsInstructionNode(nodes[j]) && IsInstructionNode(m)
    ensures SectionAt(nodes[j := m], k, start) == SectionAt(nodes, k, start)
    decreases k
  {
    if k > 0 {
      SameSectionAt(nodes, j, m, k - 1, start);
    }
  }

  lemma InstructionsInNext(nodes: seq<Node>, k: nat, start: string, section: string)
    requires k < |nodes|
    ensures Emitted(InstructionsIn(nodes, k + 1, start, section))
         == Emitted(InstructionsIn(nodes, k, start, section))
            + (if IsEmitting(nodes[k]) && SectionAt(nodes, k, start) == section then [nodes[k]] else [])
  {
    hide SectionAt, EmissionOf, Emitted;
    var before := InstructionsIn(nodes, k, start, section);
    EmittedOne(nodes[k]);
    EmittedConcat(before, [nodes[k]]);
    assert Emitted(before) + [] == Emitted(before);
    assert before + [] == before;
  }

  lemma {:induction false} ExchangeShows(nodes: seq<Node>, j: nat, m: Node, k: nat, start: string, section: string)
    requires j < |nodes| && k <= |nodes| && IsEmitting(nodes[j]) && IsEmitting(m)
    requires m != nodes[j] && SectionAt(nodes, j, start) == section
    ensures var a, b := Emitted(InstructionsIn(nodes, k, start, section)),
                        Emitted(InstructionsIn(nodes[j := m], k, start, section));
      |a| == |b| && (if k <= j then a == b else a != b)
    decreases k
  {
    hide SectionAt, EmissionOf, Emitted, InstructionsIn;
    if k == 0 {
      NothingYet(nodes, start, section);
      NothingYet(nodes[j := m], start, section);
    } else {
      ExchangeShows(nodes, j, m, k - 1, start, section);
      SameSectionAt(nodes, j, m, k - 1, start);
      InstructionsInNext(nodes, k - 1, start, section);
      InstructionsInNext(nodes[j := m], k - 1, start, section);
      LastOrEarlier(Emitted(InstructionsIn(nodes, k - 1, start, section)),
                    Emitted(InstructionsIn(nodes[j := m], k - 1, start, section)), nodes[j], m);
    }
  }

  lemma NothingYet(nodes: seq<Node>, start: string, section: string)
    ensures InstructionsIn(nodes, 0, start, section) == []
  {
  }

  lemma LastOrEarlier(a: seq<Node>, b: seq<Node>, n: Node, m: Node)
    requires |a| == |b|
    ensures n != m ==> a + [n] != b + [m]
    ensures a != b ==> forall x :: a + x != b + x
  {
    assert (a + [n])[|a|] == n && (b + [m])[|a|] == m;
    if a != b {
      var i :| 0 <= i < |a| && a[i] != b[i];
      forall x
        ensures a + x != b + x
      {
        assert (a + x)[i] != (b + x)[i];
      }
    }
  }

  // ---------- From text to text ----------

  lemma SourceHasNoStandIns(nodes: seq<Node>, k: nat, start: string, section: string)
    requires IsSource(nodes) && k <= |nodes|
    ensures NoStandIns(InstructionsIn(nodes, k, start, section))
  {
    hide IsSourceLine, UsesStandIn, InstructionsIn, SectionAt;
    forall n | n in InstructionsIn(nodes, k, start, section)
      ensures !UsesStandIn(n)
    {
      var j := PlaceOf(nodes, k, start, section, n);
      assert nodes[j] in nodes;
      SourceLineIsParsed(n);
    }
  }

  lemma SourceLineIsParsed(n: Node)
    requires IsSourceLine(n)
    ensures !UsesStandIn(n)
  {
  }

  lemma StepIsSourceLine(t: InstructionType, c: char)
    requires IsStep(t) && IsRegister([c])
    ensures IsSourceLine(Instruction1(t, Register(c)))
  {
    assert HasArity(INC, 1) && HasArity(DEC, 1);
  }

  lemma TwinIsStep(n: Node)
    requires SharesItsByte(n) && n != INC_D
    ensures var m := Twin(n);
      m.Instruction1? && IsStep(m.itype) && m.operand.Register? && IsRegister([m.operand.reg])
  {
  }

  lemma TwinIsSourceLine(n: Node)
    requires IsEmitting(n) && !ToldApart(n)
    ensures IsSourceLine(Twin(n)) && IsEmitting(Twin(n)) && Twin(n) != n && SameEffect(n, Twin(n))
  {
    hide EmissionOf, IsByteStep, IsSourceLine, Twin;
    TwinSharesByte(n);
    TwinIsStep(n);
    StepIsSourceLine(Twin(n).itype, Twin(n).operand.reg);
  }

  // The text of the program with one instruction exchanged for its twin gives the same file.
  lemma TwinText(lines: seq<string>, shstrndx: uint16, j: nat) returns (others: seq<string>)
    requires ParseText(lines).Success? && ParseText(lines).value.Root?
    requires j < |ParseText(lines).value.children|
    requires IsEmitting(ParseText(lines).value.children[j]) && !ToldApart(ParseText(lines).value.children[j])
    ensures var nodes := ParseText(lines).value.children;
      && ParseText(others) == Success(Root(nodes[j := Twin(nodes[j])]))
      && IsEmitting(Twin(nodes[j])) && Twin(nodes[j]) != nodes[j]
    ensures Compile(others, shstrndx) == Compile(lines, shstrndx)
  {
    hide ParseText, IsSourceLine, IsEmitting, ToldApart, Twin, SameEffect, Assembled, Image, Initial, Inv, PrintText;
    var nodes := ParseText(lines).value.children;
    var twins := nodes[j := Twin(nodes[j])];
    ParsedIsSource(lines);
    assert nodes[j] in nodes;
    TwinIsSourceLine(nodes[j]);
    assert forall n | n in twins :: n in nodes || n == Twin(nodes[j]);
    TextRoundTrip(twins);
    others := PrintText(twins);
    InitialInv(shstrndx);
    InvIsWired(Initial(shstrndx));
    forall i | 0 <= i < |nodes|
      ensures SameEffect(nodes[i], twins[i])
    {
      SameEffectItself(nodes[i]);
    }
    SameEffectsSameObject(Initial(shstrndx), nodes, twins, |nodes|);
  }

  lemma SameEffectItself(n: Node)
    ensures SameEffect(n, n)
  {
  }

  lemma SameFileSameInstructions(lines: seq<string>, others: seq<string>, shstrndx: uint16, i: nat)
    requires Compile(lines, shstrndx).Success? && |Compile(lines, shstrndx).value| < TWO_TO_THE_32
    requires IsProgramSection(i) && ParseText(lines).Success? && ParseText(lines).value.Root?
    requires forall n | n in Emitted(SectionOf(ParseText(lines).value.children, i)) :: ToldApart(n)
    requires Compile(others, shstrndx) == Compile(lines, shstrndx)
    ensures ParseText(others).Success? && ParseText(others).value.Root?
    ensures Emitted(SectionOf(ParseText(others).value.children, i))
         == Emitted(SectionOf(ParseText(lines).value.children, i))
  {
    hide Compile, ParseText, ReadSection, Code, CodeIn, Emitted, ToldApart, InstructionsIn, IsSource, NoStandIns;
    CompiledSectionsHoldTheirCode(lines, shstrndx, i);
    CompiledSectionsHoldTheirCode(others, shstrndx, i);
    ParsedIsSource(others);
    var a, b := ParseText(lines).value.children, ParseText(others).value.children;
    CodeInIsCode(a, |a|, "shstrtab", DEFAULT_NAMES[i]);
    CodeInIsCode(b, |b|, "shstrtab", DEFAULT_NAMES[i]);
    SourceHasNoStandIns(b, |b|, "shstrtab", DEFAULT_NAMES[i]);
    SameBytesSameInstructions(SectionOf(a, i), SectionOf(b, i));
  }

  lemma OtherTextExists(lines: seq<string>, shstrndx: uint16, i: nat, n: Node) returns (others: seq<string>)
    requires IsProgramSection(i) && ParseText(lines).Success? && ParseText(lines).value.Root?
    requires n in Emitted(SectionOf(ParseText(lines).value.children, i)) && !ToldApart(n)
    ensures Compile(others, shstrndx) == Compile(lines, shstrndx)
    ensures ParseText(others).Success? && ParseText(others).value.Root?
    ensures Emitted(SectionOf(ParseText(others).value.children, i))
         != Emitted(SectionOf(ParseText(lines).value.children, i))
  {
    hide Compile, ParseText, Code, Emitted, ToldApart, InstructionsIn, IsEmitting, Twin, SectionAt;
    var nodes := ParseText(lines).value.children;
    CodeOfEmitted(SectionOf(nodes, i));
    var j := PlaceOf(nodes, |nodes|, "shstrtab", DEFAULT_NAMES[i], n);
    others := TwinText(lines, shstrndx, j);
    ExchangeShows(nodes, j, Twin(n), |nodes|, "shstrtab", DEFAULT_NAMES[i]);
  }

  // The texts another text compares with: those that give the same file.
  predicate SameFile(lines: seq<string>, others: seq<string>, shstrndx: uint16) {
    Compile(others, shstrndx) == Compile(lines, shstrndx)
  }

  // What a text puts into a section, but for what emits nothing.
  function SectionCode(lines: seq<string>, i: nat): seq<Node>
    requires i < 8
  {
    match ParseText(lines)
    case Success(Root(nodes)) => Emitted(SectionOf(nodes, i))
    case _ => []
  }

  // The file alone determines the emitting instructions of a section, whatever text it was made
  // from, exactly when each of them can be told apart by its byte.
  lemma FileDeterminesIff(lines: seq<string>, shstrndx: uint16, i: nat)
    requires Compile(lines, shstrndx).Success? && |Compile(lines, shstrndx).value| < TWO_TO_THE_32
    requires IsProgramSection(i)
    ensures (forall others | SameFile(lines, others, shstrndx) :: SectionCode(others, i) == SectionCode(lines, i))
            <==> forall n | n in SectionCode(lines, i) :: ToldApart(n)
  {
    CompilesIff(lines, shstrndx);
    hide Compile, ParseText, Emitted, ToldApart, InstructionsIn;
    if forall n | n in SectionCode(lines, i) :: ToldApart(n) {
      forall others | SameFile(lines, others, shstrndx)
        ensures SectionCode(others, i) == SectionCode(lines, i)
      {
        SameFileSameInstructions(lines, others, shstrndx, i);
      }
    } else {
      var n :| n in SectionCode(lines, i) && !ToldApart(n);
      var others := OtherTextExists(lines, shstrndx, i, n);
      assert SameFile(lines, others, shstrndx);
    }
  }
}
