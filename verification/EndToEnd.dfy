// From source text to the bytes of an object file, and back (src/main.cpp).
module EndToEnd {
  import opened Wrappers
  import opened Ast
  import opened Tokenizer
  import opened Grammar
  import opened SourceText
  import opened Encoding
  import opened ElfModel
  import opened ElfImage
  import opened Assembling
  import P = Parser
  import E = Elf
  import A = Assembler
  import W = ElfWriter

  datatype CompileError = BadSource(source: SourceError) | BadProgram(assembly: AssembleError)

  // Assemble a parsed program into a new object and write it.
  function Build(nodes: seq<Node>, shstrndx: uint16): Result<seq<byte>, CompileError> {
    InitialInv(shstrndx);
    match Assembled(Initial(shstrndx), nodes, |nodes|)
    case Failure(stop) => Failure(BadProgram(stop.error))
    case Success(st) => Success(Image(st))
  }

  function Compile(lines: seq<string>, shstrndx: uint16): Result<seq<byte>, CompileError> {
    match ParseText(lines)
    case Failure(e) => Failure(BadSource(e))
    case Success(root) => if root.Root? then Build(root.children, shstrndx) else Failure(BadProgram(AssemblerException))
  }

  // The pipeline of main(), through the mutable objects.
  method ParseSource(lines: seq<string>) returns (r: Result<Node, SourceError>)
    ensures r == ParseText(lines)
  {
    hide TokenizeLines, ProgramLoop;
    var tokens := Tokenize(lines);
    if tokens.Failure? {
      return Failure(Lexical(tokens.error));
    }
    var parser := new P.Parser(tokens.value);
    var root := parser.Parse();
    r := if root.Success? then Success(root.value) else Failure(Syntactic(root.error));
  }

  method BuildObject(root: Node, shstrndx: uint16) returns (r: Result<seq<byte>, CompileError>)
    requires root.Root?
    ensures r == Build(root.children, shstrndx)
  {
    hide Assembled, Inv, Image, E.States, Initial, Written;
    var elf := new E.ELF(shstrndx);
    InvIsWired(elf.State());
    var done := A.Assembler.Assemble(root, elf);
    if done.Failure? {
      return Failure(BadProgram(done.error));
    }
    var os := new E.OStream();
    var writer := new W.ELFWriter(elf);
    ghost var st := elf.State();
    writer.Write(os);
    assert [] + Image(st) == Image(st);
    r := Success(os.bytes);
  }

  method CompileSource(lines: seq<string>, shstrndx: uint16) returns (r: Result<seq<byte>, CompileError>)
    ensures r == Compile(lines, shstrndx)
  {
    hide ParseText, Build;
    var root := ParseSource(lines);
    if root.Failure? {
      return Failure(BadSource(root.error));
    }
    ParsedIsSource(lines);
    r := BuildObject(root.value, shstrndx);
  }

  // ---------- Reading the object file back ----------

  // The first entry of the header table, from k up to e_shnum, whose name is `name`.
  function FindEntry(image: seq<byte>, name: seq<byte>, k: nat, count: nat): Option<nat>
    decreases count - k
  {
    if k >= count then None
    else if SectionName(image, k) == Some(name) then Some(k)
    else FindEntry(image, name, k + 1, count)
  }

  // The bytes of a section, found by name as any ELF reader would.
  function ReadSection(image: seq<byte>, name: string): Option<seq<byte>> {
    match FileHeader(image)
    case None => None
    case Some(e) =>
      match FindEntry(image, StringBytes(name), 1, e.shnum)
      case None => None
      case Some(k) =>
        match Entry(image, k)
        case None => None
        case Some(h) => Window(image, h)
  }

  // The sections of a new object that hold program bytes.
  predicate IsProgramSection(i: nat) {
    2 <= i <= 6
  }

  lemma DefaultNamesApart(i: nat, j: nat)
    requires j < i < 8 && IsProgramSection(i)
    ensures StringBytes(DEFAULT_NAMES[j]) != StringBytes(DEFAULT_NAMES[i])
  {
    var a, b := StringBytes(DEFAULT_NAMES[j]), StringBytes(DEFAULT_NAMES[i]);
    assert |DEFAULT_NAMES[j]| != |DEFAULT_NAMES[i]| || DEFAULT_NAMES[j][0] != DEFAULT_NAMES[i][0];
    if |a| == |b| {
      assert a[0] != b[0];
    }
  }

  lemma DefaultNamesNulFree(i: nat)
    requires i < 8
    ensures NulFree(DEFAULT_NAMES[i])
  {
  }

  // The object assembled from a program, in terms of its initial state.
  lemma AssembledDefaults(shstrndx: uint16, nodes: seq<Node>, i: nat)
    requires i < 8 && Wired(Initial(shstrndx)) && Assembled(Initial(shstrndx), nodes, |nodes|).Success?
    ensures var st := Assembled(Initial(shstrndx), nodes, |nodes|).value;
      && Inv(st) && |st.sections| == 8
      && st.sections[i].name == DEFAULT_NAMES[i]
      && (IsProgramSection(i) ==>
            st.sections[i].contents == Progbits(CodeIn(nodes, |nodes|, "shstrtab", DEFAULT_NAMES[i])))
  {
    var before := Initial(shstrndx);
    hide Inv, Assembled, CodeIn;
    InitialInv(shstrndx);
    AssemblingRefines(before, nodes, |nodes|);
    assert SectionGrown(before, nodes, |nodes|, Assembled(before, nodes, |nodes|).value, i);
    DefaultNames(i);
    assert StartName(before) == "shstrtab";
    assert [] + CodeIn(nodes, |nodes|, "shstrtab", DEFAULT_NAMES[i])
        == CodeIn(nodes, |nodes|, "shstrtab", DEFAULT_NAMES[i]);
  }

  lemma {:induction false} FindDefault(shstrndx: uint16, nodes: seq<Node>, i: nat, k: nat)
    requires Wired(Initial(shstrndx)) && Assembled(Initial(shstrndx), nodes, |nodes|).Success?
    requires |Image(Assembled(Initial(shstrndx), nodes, |nodes|).value)| < TWO_TO_THE_32
    requires IsProgramSection(i) && 1 <= k <= i + 1
    ensures FindEntry(Image(Assembled(Initial(shstrndx), nodes, |nodes|).value),
                      StringBytes(DEFAULT_NAMES[i]), k, 8) == Some(i + 1)
    decreases i + 1 - k
  {
    hide Inv, Assembled, Image, SectionName, StringBytes, NulFree;
    AssembledDefaults(shstrndx, nodes, k - 1);
    DefaultNamesNulFree(k - 1);
    SectionNamesResolve(Assembled(Initial(shstrndx), nodes, |nodes|).value, k - 1);
    if k <= i {
      DefaultNamesApart(i, k - 1);
      FindDefault(shstrndx, nodes, i, k + 1);
    }
  }

  // Whatever source text compiles, each program section of the file, looked up by its name in
  // the file's own name table, holds exactly the code of the instructions the text places in
  // it, in order.
  lemma CompiledSectionsHoldTheirCode(lines: seq<string>, shstrndx: uint16, i: nat)
    requires Compile(lines, shstrndx).Success? && IsProgramSection(i)
    requires |Compile(lines, shstrndx).value| < TWO_TO_THE_32
    ensures ParseText(lines).Success? && ParseText(lines).value.Root?
    ensures var nodes := ParseText(lines).value.children;
      ReadSection(Compile(lines, shstrndx).value, DEFAULT_NAMES[i])
      == Some(CodeIn(nodes, |nodes|, "shstrtab", DEFAULT_NAMES[i]))
  {
    hide Inv, Assembled, Image, SectionName, StringBytes, ParseText, FindEntry, FileHeader, Entry, Window, CodeIn;
    InitialInv(shstrndx);
    InvIsWired(Initial(shstrndx));
    var nodes := ParseText(lines).value.children;
    var st := Assembled(Initial(shstrndx), nodes, |nodes|).value;
    AssembledDefaults(shstrndx, nodes, i);
    InvHasFreshHeader(st);
    FileHeaderIsFinal(st);
    FindDefault(shstrndx, nodes, i, 1);
    LayoutHolds(st, i);
  }

  // ---------- Decoding the object file ----------

  // The instructions among the first k nodes that belong to one section.
  function InstructionsIn(nodes: seq<Node>, k: nat, start: string, section: string): seq<Node>
    requires k <= |nodes|
  {
    if k == 0 then []
    else InstructionsIn(nodes, k - 1, start, section)
         + (if IsInstructionNode(nodes[k - 1]) && SectionAt(nodes, k - 1, start) == section
            then [nodes[k - 1]] else [])
  }

  // The instructions of a whole program that belong to a section of a new object.
  function SectionOf(nodes: seq<Node>, i: nat): seq<Node>
    requires i < 8
  {
    InstructionsIn(nodes, |nodes|, "shstrtab", DEFAULT_NAMES[i])
  }

  lemma {:induction false} CodeConcat(a: seq<Node>, n: Node)
    requires IsInstructionNode(n)
    ensures Code(a + [n]) == Code(a) + CodeOf(n)
  {
    hide EmissionOf;
    if a == [] {
      assert [] + [n] == [n] && Code([n][1..]) == [];
    } else {
      assert (a + [n])[1..] == a[1..] + [n];
      CodeConcat(a[1..], n);
    }
  }

  lemma {:induction false} CodeInIsCode(nodes: seq<Node>, k: nat, start: string, section: string)
    requires k <= |nodes|
    ensures CodeIn(nodes, k, start, section) == Code(InstructionsIn(nodes, k, start, section))
    decreases k
  {
    hide EmissionOf, SectionAt, Code;
    CodeOfNothing();
    if k > 0 {
      CodeInIsCode(nodes, k - 1, start, section);
      var before := InstructionsIn(nodes, k - 1, start, section);
      assert before + [] == before && Code(before) + [] == Code(before);
      if IsInstructionNode(nodes[k - 1]) {
        CodeConcat(before, nodes[k - 1]);
      }
    }
  }

  lemma CodeOfNothing()
    ensures Code([]) == []
  {
  }

  // From the bytes of the object file alone, the instructions the source text placed in a
  // section come back, but for those that emit nothing, if the decoder knows their bytes.
  lemma CompiledSectionsDecode(lines: seq<string>, shstrndx: uint16, i: nat)
    requires Compile(lines, shstrndx).Success? && IsProgramSection(i)
    requires |Compile(lines, shstrndx).value| < TWO_TO_THE_32
    requires ParseText(lines).Success? && ParseText(lines).value.Root?
    requires forall n | n in SectionOf(ParseText(lines).value.children, i) && IsEmitting(n) :: Decodable(n)
    ensures ReadSection(Compile(lines, shstrndx).value, DEFAULT_NAMES[i]).Some?
    ensures DecodeAll(ReadSection(Compile(lines, shstrndx).value, DEFAULT_NAMES[i]).value)
         == Some(Emitted(SectionOf(ParseText(lines).value.children, i)))
  {
    hide Compile, ParseText, ReadSection, DecodeAll, Code, CodeIn, Decodable, InstructionsIn, IsEmitting, Emitted;
    var nodes := ParseText(lines).value.children;
    CompiledSectionsHoldTheirCode(lines, shstrndx, i);
    CodeInIsCode(nodes, |nodes|, "shstrtab", DEFAULT_NAMES[i]);
    CodeDecodes(SectionOf(nodes, i));
  }

  // Source text compiles exactly when it parses and every node is acceptable in its place.
  lemma CompilesIff(lines: seq<string>, shstrndx: uint16)
    ensures Wired(Initial(shstrndx))
    ensures ParseText(lines).Success? ==> ParseText(lines).value.Root?
    ensures Compile(lines, shstrndx).Success? <==>
              && ParseText(lines).Success?
              && var nodes := ParseText(lines).value.children;
              forall k | 0 <= k < |nodes| :: Acceptable(Initial(shstrndx), nodes, k)
  {
    hide ParseText, Assembled, Acceptable, Inv, Initial, IsSource;
    InitialInv(shstrndx);
    InvIsWired(Initial(shstrndx));
    if ParseText(lines).Success? {
      ParsedIsSource(lines);
      var nodes := ParseText(lines).value.children;
      AssemblingSucceedsIff(Initial(shstrndx), nodes, |nodes|);
    }
  }

  // If it parses and does not compile, the error is the objection to the first node that is not
  // acceptable.
  lemma CompileErrorIs(lines: seq<string>, shstrndx: uint16, k: nat)
    requires Wired(Initial(shstrndx)) && ParseText(lines).Success? && ParseText(lines).value.Root?
    requires var nodes := ParseText(lines).value.children;
      && k < |nodes| && Objection(Initial(shstrndx), nodes, k).Some?
      && forall j | 0 <= j < k :: Acceptable(Initial(shstrndx), nodes, j)
    ensures Compile(lines, shstrndx)
         == Failure(BadProgram(Objection(Initial(shstrndx), ParseText(lines).value.children, k).value))
  {
    hide ParseText, Assembled, Objection, Inv, Initial, IsSource;
    InitialInv(shstrndx);
    var st, nodes := Initial(shstrndx), ParseText(lines).value.children;
    AssemblingSucceedsIff(st, nodes, |nodes|);
    assert !Acceptable(st, nodes, k);
    AssemblingStopsAtObjection(st, nodes, |nodes|);
    var stop := Assembled(st, nodes, |nodes|).error;
    assert !Acceptable(st, nodes, stop.at);
  }

  // Two-operand lines can be taken out of a text that parses without any effect on the file or
  // the error.
  lemma PairLinesDropped(lines: seq<string>, shstrndx: uint16)
    requires ParseText(lines).Success?
    ensures ParseText(lines).value.Root?
    ensures Compile(PrintText(WithoutPairs(ParseText(lines).value.children)), shstrndx) == Compile(lines, shstrndx)
  {
    hide ParseText, PrintText, Assembled, Inv, Initial, Image, IsSourceLine;
    ParsedIsSource(lines);
    var nodes := ParseText(lines).value.children;
    WithoutPairsKeepsSource(nodes);
    TextRoundTrip(WithoutPairs(nodes));
    InitialInv(shstrndx);
    InvIsWired(Initial(shstrndx));
    PairsDropped(Initial(shstrndx), nodes);
  }

  lemma {:induction false} WithoutPairsKeepsSource(nodes: seq<Node>)
    requires IsSource(nodes)
    ensures IsSource(WithoutPairs(nodes))
    ensures forall n | n in WithoutPairs(nodes) :: !n.Instruction2?
    decreases |nodes|
  {
    hide IsSourceLine;
    if nodes != [] {
      var init := nodes[..|nodes| - 1];
      assert forall n | n in init :: n in nodes;
      assert nodes[|nodes| - 1] in nodes;
      WithoutPairsKeepsSource(init);
    }
  }
}
