// What stands in a compiled file, byte by byte: the System V ABI's fields at their offsets, and
// the numbers gbas puts there (src/elf.cpp, src/elf_writer.cpp).
module FileFormat {
  import opened Wrappers
  import opened Ast
  import opened SourceText
  import opened ElfModel
  import opened Bytes
  import opened ElfImage
  import opened Assembling
  import opened EndToEnd
  import R = Recovery

  // ---------- Fields ----------

  function HalfWord(b: seq<byte>, at: nat): int
    requires at + 2 <= |b|
  {
    256 * (b[at] as int) + b[at + 1] as int
  }

  function Word(b: seq<byte>, at: nat): int
    requires at + 4 <= |b|
  {
    16777216 * (b[at] as int) + 65536 * (b[at + 1] as int) + 256 * (b[at + 2] as int) + b[at + 3] as int
  }

  function LittleHalfWord(b: seq<byte>, at: nat): int
    requires at + 2 <= |b|
  {
    b[at] as int + 256 * (b[at + 1] as int)
  }

  function LittleWord(b: seq<byte>, at: nat): int
    requires at + 4 <= |b|
  {
    b[at] as int + 256 * (b[at + 1] as int) + 65536 * (b[at + 2] as int) + 16777216 * (b[at + 3] as int)
  }

  lemma FieldIsWord(b: seq<byte>, from: nat, to: nat, at: nat)
    requires from + at + 4 <= to <= |b|
    ensures Field32(b[from..to], at) == Word(b, from + at)
  {
    var slice := b[from..to];
    var field := slice[at..at + 4];
    assert field[0] == b[from + at] && field[1] == b[from + at + 1];
    assert field[2] == b[from + at + 2] && field[3] == b[from + at + 3];
    assert field[..2] == [field[0], field[1]] && field[2..] == [field[2], field[3]];
  }

  lemma FieldIsHalfWord(b: seq<byte>, to: nat, at: nat)
    requires at + 2 <= to <= |b|
    ensures Field16(b[..to], at) == HalfWord(b, at)
  {
    var slice := b[..to];
    var field := slice[at..at + 2];
    assert field[0] == b[at] && field[1] == b[at + 1];
  }

  // A section header is ten words, in this order.
  lemma HeaderFields(image: seq<byte>, at: nat)
    requires at + 40 <= |image|
    ensures ShdrAt(image, at).Some?
    ensures var h := ShdrAt(image, at).value;
      && h.name == Word(image, at) && h.stype == Word(image, at + 4) && h.flags == Word(image, at + 8)
      && h.addr == Word(image, at + 12) && h.offset == Word(image, at + 16) && h.size == Word(image, at + 20)
      && h.link == Word(image, at + 24) && h.info == Word(image, at + 28)
      && h.addralign == Word(image, at + 32) && h.entsize == Word(image, at + 36)
  {
    hide Word, Field32;
    var to := at + 40;
    FieldIsWord(image, at, to, 0);
    FieldIsWord(image, at, to, 4);
    FieldIsWord(image, at, to, 8);
    FieldIsWord(image, at, to, 12);
    FieldIsWord(image, at, to, 16);
    FieldIsWord(image, at, to, 20);
    FieldIsWord(image, at, to, 24);
    FieldIsWord(image, at, to, 28);
    FieldIsWord(image, at, to, 32);
    FieldIsWord(image, at, to, 36);
  }

  // The file header is sixteen identifying bytes, then these words and half words.
  lemma FileHeaderFields(image: seq<byte>)
    requires 52 <= |image|
    ensures FileHeader(image).Some?
    ensures var e := FileHeader(image).value;
      && e.ident == image[..16] && e.etype == HalfWord(image, 16) && e.machine == HalfWord(image, 18)
      && e.version == Word(image, 20) && e.entry == Word(image, 24) && e.phoff == Word(image, 28)
      && e.shoff == Word(image, 32) && e.flags == Word(image, 36) && e.ehsize == HalfWord(image, 40)
      && e.phentsize == HalfWord(image, 42) && e.phnum == HalfWord(image, 44)
      && e.shentsize == HalfWord(image, 46) && e.shnum == HalfWord(image, 48) && e.shstrndx == HalfWord(image, 50)
  {
    hide Word, HalfWord, Field16, Field32;
    assert image[0..52] == image[..52] && image[..52][..16] == image[..16];
    FieldIsHalfWord(image, 52, 16);
    FieldIsHalfWord(image, 52, 18);
    FieldIsWord(image, 0, 52, 20);
    FieldIsWord(image, 0, 52, 24);
    FieldIsWord(image, 0, 52, 28);
    FieldIsWord(image, 0, 52, 32);
    FieldIsWord(image, 0, 52, 36);
    FieldIsHalfWord(image, 52, 40);
    FieldIsHalfWord(image, 52, 42);
    FieldIsHalfWord(image, 52, 44);
    FieldIsHalfWord(image, 52, 46);
    FieldIsHalfWord(image, 52, 48);
    FieldIsHalfWord(image, 52, 50);
  }

  // ---------- The object behind a compiled file ----------

  lemma HeadersKept(st: ElfState, nodes: seq<Node>, i: nat)
    requires Inv(st) && Wired(st) && NoLabels(nodes) && Assembled(st, nodes, |nodes|).Success? && i < |st.sections|
    requires st.sections[i].contents.Strtab? ==> i <= 1
    requires st.sections[i].contents.Symtab? ==> i == 7
    ensures var after := Assembled(st, nodes, |nodes|).value;
      && |after.sections| == |st.sections| && after.header == st.header
      && after.sections[i].header == st.sections[i].header && after.sections[i].name == st.sections[i].name
  {
    hide Inv, Assembled, Refines, CodeIn;
    AssemblingRefines(st, nodes, |nodes|);
    var after := Assembled(st, nodes, |nodes|).value;
    RefinedShape(st, nodes, |nodes|, after);
    NoLabelsKeepTables(st, nodes, |nodes|);
    assert SectionGrown(st, nodes, |nodes|, after, i);
  }

  lemma InitialKinds(shstrndx: uint16, i: nat)
    requires i < 8
    ensures |Initial(shstrndx).sections| == 8
    ensures var section := Initial(shstrndx).sections[i];
      && section.header == DefaultSection(i).header && section.name == DEFAULT_NAMES[i]
      && (section.contents.Strtab? ==> i <= 1) && (section.contents.Symtab? ==> i == 7)
  {
    DefaultNames(i);
  }

  lemma CompiledObject(lines: seq<string>, shstrndx: uint16) returns (st: ElfState)
    requires Compile(lines, shstrndx).Success?
    ensures Inv(st) && Compile(lines, shstrndx).value == Image(st)
    ensures |st.sections| == 8 && st.header == FreshEhdr(shstrndx)
    ensures forall i | 0 <= i < 8 ::
              st.sections[i].header == DefaultSection(i).header && st.sections[i].name == DEFAULT_NAMES[i]
  {
    hide Inv, Assembled, Image, ParseText, IsSource, DefaultSection, BootSections;
    InitialInv(shstrndx);
    InvIsWired(Initial(shstrndx));
    ParsedIsSource(lines);
    var nodes := ParseText(lines).value.children;
    R.SourceHasNoLabels(nodes);
    st := Assembled(Initial(shstrndx), nodes, |nodes|).value;
    AssembledDefaults(shstrndx, nodes, 0);
    forall i | 0 <= i < 8
      ensures st.sections[i].header == DefaultSection(i).header && st.sections[i].name == DEFAULT_NAMES[i]
    {
      InitialKinds(shstrndx, i);
      HeadersKept(Initial(shstrndx), nodes, i);
    }
    InitialKinds(shstrndx, 0);
    HeadersKept(Initial(shstrndx), nodes, 0);
  }

  // ---------- The numbers ----------

  const IDENT: seq<byte> := [0x7f, 0x45, 0x4c, 0x46, 0x01, 0x02, 0x01, 0xff, 0, 0, 0, 0, 0, 0, 0, 0]

  const SECTION_NAMES: seq<string> := ["shstrtab", "strtab", "data", "rodata", "bss", "text", "init", "symtab"]
  const SECTION_TYPES: seq<int> := [3, 3, 1, 1, 8, 1, 1, 2]
  const SECTION_FLAGS: seq<int> := [0, 0, 3, 2, 3, 6, 6, 2]
  const ENTRY_SIZES: seq<int> := [0, 0, 0, 0, 0, 0, 0, 16]

  // Every compiled file starts with these sixteen bytes and says of itself: relocatable, no
  // machine, version 1, no entry point or program headers, eight sections with 40-byte headers
  // behind the 52-byte file header, the first of them the section names.
  lemma CompiledFileHeader(lines: seq<string>, shstrndx: uint16)
    requires Compile(lines, shstrndx).Success?
    ensures |Compile(lines, shstrndx).value| >= 52
    ensures var image := Compile(lines, shstrndx).value;
      && image[..16] == IDENT
      && HalfWord(image, 16) == 1 && HalfWord(image, 18) == 0 && Word(image, 20) == 1
      && Word(image, 24) == 0 && Word(image, 28) == 0 && Word(image, 32) == 52 && Word(image, 36) == 0
      && HalfWord(image, 40) == 52 && HalfWord(image, 42) == 32 && HalfWord(image, 44) == 0
      && HalfWord(image, 46) == 40 && HalfWord(image, 48) == 8 && HalfWord(image, 50) == 1
  {
    hide Compile, Inv, Image, Word, HalfWord, DefaultSection, FileHeader;
    var st := CompiledObject(lines, shstrndx);
    InvHasFreshHeader(st);
    FileHeaderIsFinal(st);
    FirstIsStrtab(st);
    FileHeaderPresent(Image(st));
    FileHeaderFields(Image(st));
  }

  lemma FileHeaderPresent(image: seq<byte>)
    requires FileHeader(image).Some?
    ensures |image| >= 52
  {
  }

  lemma FirstIsStrtab(st: ElfState)
    requires Inv(st)
    ensures FirstStrtab(st.sections) == 0
  {
  }

  lemma DefaultHeaders(i: nat)
    requires i < 8
    ensures var h := DefaultSection(i).header;
      && h.stype == SECTION_TYPES[i] && h.flags == SECTION_FLAGS[i] && h.entsize == ENTRY_SIZES[i]
      && h.addr == h.link == h.info == h.addralign == 0
    ensures DEFAULT_NAMES[i] == SECTION_NAMES[i]
  {
  }

  // Its eight section headers stand behind the null one and carry these types, flags, entry
  // sizes and names, everything else but offset and size being zero.
  lemma CompiledSectionHeader(lines: seq<string>, shstrndx: uint16, i: nat)
    requires Compile(lines, shstrndx).Success? && |Compile(lines, shstrndx).value| < TWO_TO_THE_32 && i < 8
    ensures var at := 52 + 40 * (i + 1); at + 40 <= |Compile(lines, shstrndx).value|
    ensures var image, at := Compile(lines, shstrndx).value, 52 + 40 * (i + 1);
      && Word(image, at + 4) == SECTION_TYPES[i] && Word(image, at + 8) == SECTION_FLAGS[i]
      && Word(image, at + 12) == 0 && Word(image, at + 24) == 0 && Word(image, at + 28) == 0
      && Word(image, at + 32) == 0 && Word(image, at + 36) == ENTRY_SIZES[i]
    ensures SectionName(Compile(lines, shstrndx).value, i + 1) == Some(StringBytes(SECTION_NAMES[i]))
  {
    hide Compile, Inv, Image, Word, DefaultSection, ShdrAt, SectionName, StringBytes, FileHeader, NulFree;
    hide SECTION_NAMES, SECTION_TYPES, SECTION_FLAGS, ENTRY_SIZES;
    var st := CompiledObject(lines, shstrndx);
    InvHasFreshHeader(st);
    FileHeaderIsFinal(st);
    LayoutHolds(st, i);
    DefaultHeaders(i);
    DefaultNamesNulFree(i);
    SectionNamesResolve(st, i);
    EntryPlace(Image(st), i + 1);
    HeaderFields(Image(st), 52 + 40 * (i + 1));
  }

  lemma EntryPlace(image: seq<byte>, k: nat)
    requires FileHeader(image).Some? && FileHeader(image).value.shoff == 52 && FileHeader(image).value.shentsize == 40
    requires Entry(image, k).Some?
    ensures 52 + 40 * k + 40 <= |image| && Entry(image, k) == ShdrAt(image, 52 + 40 * k)
  {
    hide FileHeader, ReadShdr;
  }

  // ---------- Symbols ----------

  lemma {:induction false} SymbolBytesPrefix(symbols: seq<Sym>, k: nat)
    requires k <= |symbols|
    ensures SymbolBytes(symbols[..k]) <= SymbolBytes(symbols)
    decreases |symbols| - k
  {
    hide SymbolBytes, SymMemory;
    if k == |symbols| {
      assert symbols[..k] == symbols;
    } else {
      SymbolBytesNext(symbols, k);
      SymbolBytesPrefix(symbols, k + 1);
    }
  }

  lemma SymbolAt(symbols: seq<Sym>, i: nat)
    requires i < |symbols|
    ensures |SymbolBytes(symbols)| == 16 * |symbols|
    ensures SymbolBytes(symbols)[16 * i..16 * i + 16] == SymMemory(symbols[i])
  {
    hide SymbolBytes, SymMemory;
    SymbolBytesLength(symbols);
    SymbolBytesLength(symbols[..i]);
    SymbolBytesNext(symbols, i);
    SymbolBytesPrefix(symbols, i + 1);
    SliceOfPrefix(SymbolBytes(symbols[..i]), SymMemory(symbols[i]), SymbolBytes(symbols));
  }

  lemma LittleFields(x: uint32, y: uint16)
    ensures LittleWord(Le32(x), 0) == x && LittleHalfWord(Le16(y), 0) == y
  {
    var lo: int, hi: int := x % 65536, x / 65536;
    assert Le32(x) == [lo % 256, lo / 256, hi % 256, hi / 256];
  }

  // The i-th symbol stands at 16 i, its fields in the host's byte order at these offsets.
  lemma SymbolFields(symbols: seq<Sym>, i: nat)
    requires i < |symbols|
    ensures |SymbolBytes(symbols)| == 16 * |symbols|
    ensures var b, at, s := SymbolBytes(symbols), 16 * i, symbols[i];
      && LittleWord(b, at) == s.name && LittleWord(b, at + 4) == s.value && LittleWord(b, at + 8) == s.size
      && b[at + 12] == s.info && b[at + 13] == s.other && LittleHalfWord(b, at + 14) == s.shndx
  {
    hide SymbolBytes, Le32, Le16;
    SymbolAt(symbols, i);
    var s := symbols[i];
    var m := SymMemory(s);
    LittleFields(s.name, s.shndx);
    LittleFields(s.value, s.shndx);
    LittleFields(s.size, s.shndx);
    assert m[0..4] == Le32(s.name) && m[4..8] == Le32(s.value) && m[8..12] == Le32(s.size);
    assert m[12] == s.info && m[13] == s.other && m[14..16] == Le16(s.shndx);
    var b, at := SymbolBytes(symbols), 16 * i;
    assert forall k | 0 <= k < 16 :: b[at + k] == m[k];
  }

  // So the symbols read back from the file are those of the object, whatever built it.
  lemma SymbolsReadBack(st: ElfState, i: nat)
    requires Inv(st) && Wired(st) && |Image(st)| < TWO_TO_THE_32 && i < |Symbols(st)|
    ensures Entry(Image(st), 8).Some? && Window(Image(st), Entry(Image(st), 8).value).Some?
    ensures var b, at, s := Window(Image(st), Entry(Image(st), 8).value).value, 16 * i, Symbols(st)[i];
      && |b| == 16 * |Symbols(st)|
      && LittleWord(b, at) == s.name && LittleWord(b, at + 4) == s.value && LittleWord(b, at + 8) == s.size
      && b[at + 12] == s.info && b[at + 13] == s.other && LittleHalfWord(b, at + 14) == s.shndx
  {
    hide Image, Entry, Window, SymbolBytes, LittleWord, LittleHalfWord;
    InvHasFreshHeader(st);
    LayoutHolds(st, 7);
    SymbolFields(Symbols(st), i);
  }

  // The null symbol comes first.
  lemma NullSymbolFirst(st: ElfState)
    requires Inv(st) && Wired(st) && |Image(st)| < TWO_TO_THE_32
    ensures |Symbols(st)| >= 1 && Symbols(st)[0] == Sym(0, 0, 0, 0, 0, 0)
    ensures Entry(Image(st), 8).Some? && Window(Image(st), Entry(Image(st), 8).value).Some?
    ensures var b := Window(Image(st), Entry(Image(st), 8).value).value;
      |b| >= 16 && LittleWord(b, 0) == LittleWord(b, 4) == LittleWord(b, 8) == LittleWord(b, 12) == 0
  {
    hide Image, Entry, Window, DistinctNames, NamesListed, SymbolsIndexed;
    SymbolsReadBack(st, 0);
  }

  // ---------- The null header, and characters ----------

  // The forty bytes behind the file header are zero.
  lemma NullHeaderIsZero(st: ElfState)
    requires HasFreshHeader(st)
    ensures |Image(st)| >= 92
    ensures forall i | 52 <= i < 92 :: Image(st)[i] == 0
  {
    hide Image, Headers, Bodies, EhdrBytes;
    EhdrRoundTrip(FinalEhdr(st));
    HeadersPrefix(st, 0, |st.sections|);
    ImageIsHeadersAndBodies(st);
    assert HeaderTable(st.sections, 0) == [];
    FirstHeaders(st);
    NullBytes();
    SliceOfPrefix(EhdrBytes(FinalEhdr(st)), ShdrBytes(NullShdr()), Image(st));
    assert forall i | 52 <= i < 92 :: Image(st)[i] == Image(st)[52..92][i - 52];
  }

  lemma FirstHeaders(st: ElfState)
    ensures Headers(st, 0) == EhdrBytes(FinalEhdr(st)) + ShdrBytes(NullShdr())
  {
    hide EhdrBytes, ShdrBytes, FinalEhdr;
    assert HeaderTable(st.sections, 0) == [];
  }

  lemma NullBytes()
    ensures |ShdrBytes(NullShdr())| == 40 && forall i | 0 <= i < 40 :: ShdrBytes(NullShdr())[i] == 0
  {
    assert Be32(0) == [0, 0, 0, 0];
    hide Be32;
  }

  // A character of one byte is written as that byte.
  lemma CharactersAreBytes(s: string, i: nat)
    requires i < |s| && s[i] as int < 256
    ensures StringBytes(s)[i] == s[i] as int
  {
  }
}
