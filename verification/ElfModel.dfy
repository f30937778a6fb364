// The state of an ELF object and what each operation makes of it (src/elf.cpp, include/elf.hpp),
// with the invariants of every run.
module ElfModel {
  import opened Wrappers
  import opened Ast

  const TWO_TO_THE_16 := 0x1_0000
  const TWO_TO_THE_32 := 0x1_0000_0000

  type uint16 = x: int | 0 <= x < 0x1_0000
  type uint32 = x: int | 0 <= x < 0x1_0000_0000

  function W16(x: int): uint16 {
    x % TWO_TO_THE_16
  }

  function W32(x: int): uint32 {
    x % TWO_TO_THE_32
  }

  const SHT_PROGBITS: uint32 := 1
  const SHT_SYMTAB: uint32 := 2
  const SHT_STRTAB: uint32 := 3
  const SHT_NOBITS: uint32 := 8
  const SHF_WRITE: uint32 := 1
  const SHF_ALLOC: uint32 := 2
  const SHF_EXECINSTR: uint32 := 4
  const EHDR_SIZE := 52
  const SHDR_SIZE := 40
  const PHDR_SIZE := 32
  const SYM_SIZE := 16
  const STB_GLOBAL: byte := 1
  const STT_NOTYPE: byte := 0
  const STV_DEFAULT: byte := 0

  datatype Ehdr = Ehdr(
    ident: seq<byte>, etype: uint16, machine: uint16, version: uint32, entry: uint32, phoff: uint32,
    shoff: uint32, flags: uint32, ehsize: uint16, phentsize: uint16, phnum: uint16, shentsize: uint16,
    shnum: uint16, shstrndx: uint16)

  datatype Shdr = Shdr(
    name: uint32, stype: uint32, flags: uint32, addr: uint32, offset: uint32, size: uint32,
    link: uint32, info: uint32, addralign: uint32, entsize: uint32)

  datatype Sym = Sym(name: uint32, value: uint32, size: uint32, info: byte, other: byte, shndx: uint16)

  const NULL_SYM := Sym(0, 0, 0, 0, 0, 0)

  datatype Contents =
    | Progbits(data: seq<byte>)
    | Strtab(strings: seq<string>)
    | Symtab(symbols: seq<Sym>)

  datatype SectionState = SectionState(name: string, header: Shdr, contents: Contents)

  datatype ElfState = ElfState(
    header: Ehdr, sections: seq<SectionState>, shstrtabIdx: nat, strtabIdx: nat, currSection: nat,
    currRelIdx: nat, currSymtabIdx: nat, symbolNames: set<string>)

  // ELFException, std::bad_cast and std::out_of_range.
  datatype ElfError = ELFException | BadCast | OutOfRange

  type ElfResult = Result<ElfState, ElfError>

  // ---------- Operations ----------

  // The first section of that name, or the number of sections.
  function IndexOf(sections: seq<SectionState>, name: string): (i: nat)
    ensures i <= |sections|
    ensures i < |sections| ==> sections[i].name == name
    ensures forall j | 0 <= j < i :: sections[j].name != name
  {
    if sections == [] || sections[0].name == name then 0 else 1 + IndexOf(sections[1..], name)
  }

  function PushString(section: SectionState, s: string): SectionState
    requires section.contents.Strtab?
  {
    section.(contents := Strtab(section.contents.strings + [s]))
  }

  // add_section with relocatable = false. The name goes to the section name table, which may
  // be the very section being added.
  function AddSection(st: ElfState, section: SectionState): ElfResult {
    var i := st.shstrtabIdx;
    if IndexOf(st.sections, section.name) < |st.sections| then
      Failure(ELFException)
    else if section.name == "shstrtab" then
      if !section.contents.Strtab? then Failure(BadCast)
      else Success(st.(sections := st.sections + [PushString(section, section.name)]))
    else if i >= |st.sections| then
      Failure(OutOfRange)
    else if !st.sections[i].contents.Strtab? then
      Failure(BadCast)
    else
      Success(st.(sections := st.sections[i := PushString(st.sections[i], section.name)] + [section]))
  }

  function SetSection(st: ElfState, name: string): ElfResult {
    var i := IndexOf(st.sections, name);
    if i == |st.sections| then Failure(ELFException)
    else Success(st.(currSection := i, currRelIdx := IndexOf(st.sections, "rel" + name)))
  }

  // The tables the accessors of the class cast to are there and of the right kind.
  predicate Wired(st: ElfState) {
    && st.shstrtabIdx == 0 && st.strtabIdx == 1 && st.currSymtabIdx == 7
    && 8 <= |st.sections|
    && st.currSection < |st.sections|
    && st.sections[0].contents.Strtab?
    && st.sections[1].contents.Strtab?
    && st.sections[7].contents.Symtab?
  }

  function Strings(st: ElfState): seq<string>
    requires Wired(st)
  {
    st.sections[1].contents.strings
  }

  function Symbols(st: ElfState): seq<Sym>
    requires Wired(st)
  {
    st.sections[7].contents.symbols
  }

  function AddString(st: ElfState, s: string): ElfState
    requires Wired(st)
  {
    var table := PushString(st.sections[1], s);
    var header := table.header.(size := W32(table.header.size + |s| + 1));
    st.(sections := st.sections[1 := table.(header := header)])
  }

  function PushSymbol(st: ElfState, sym: Sym): ElfState
    requires Wired(st)
  {
    st.(sections := st.sections[7 := st.sections[7].(contents := Symtab(Symbols(st) + [sym]))])
  }

  function MakeSymbol(st: ElfState, value: uint32, size: uint32, stype: byte, bind: byte, visibility: byte): Sym
    requires Wired(st)
  {
    Sym(W32(|Strings(st)|), value, size, (bind * 16 + stype % 16) % 256, visibility % 4, st.currSection % 256)
  }

  function AddSymbol(st: ElfState, name: string, value: uint32, size: uint32, stype: byte, bind: byte,
                     visibility: byte): ElfResult
    requires Wired(st)
  {
    if name in st.symbolNames then Failure(ELFException)
    else
      var sym := MakeSymbol(st, value, size, stype, bind, visibility);
      Success(PushSymbol(AddString(st.(symbolNames := st.symbolNames + {name}), name), sym))
  }

  function AddProgbits(st: ElfState, data: seq<byte>): ElfResult
    requires Wired(st)
  {
    var section := st.sections[st.currSection];
    if !section.contents.Progbits? then Failure(ELFException)
    else Success(st.(sections := st.sections[st.currSection :=
                                   section.(contents := Progbits(section.contents.data + data))]))
  }

  // ---------- The state a constructor leaves ----------

  const ELF_IDENT: seq<byte> := [0x7f, 0x45, 0x4c, 0x46, 1, 2, 1, 255, 0, 0, 0, 0, 0, 0, 0, 0]

  function FreshShdr(stype: uint32, flags: uint32, entsize: uint32): Shdr {
    Shdr(0, stype, flags, 0, 0, 0, 0, 0, 0, entsize)
  }

  function FreshEhdr(shstrndx: uint16): Ehdr {
    Ehdr(ELF_IDENT, 1, 0, 1, 0, 0, 0, 0, EHDR_SIZE, PHDR_SIZE, 0, SHDR_SIZE, 0, shstrndx)
  }

  const DEFAULT_NAMES: seq<string> := ["shstrtab", "strtab", "data", "rodata", "bss", "text", "init", "symtab"]

  // What the section constructors start from: a string table with its leading empty string, no
  // program bytes, a symbol table with its null entry.
  function NewStrtab(): Contents {
    Strtab([""])
  }

  function NewProgbits(): Contents {
    Progbits([])
  }

  function NewSymtab(): Contents {
    Symtab([NULL_SYM])
  }

  function DefaultSection(k: nat): SectionState
    requires k < 8
  {
    match k
    case 0 => SectionState("shstrtab", FreshShdr(SHT_STRTAB, 0, 0), NewStrtab())
    case 1 => SectionState("strtab", FreshShdr(SHT_STRTAB, 0, 0), NewStrtab())
    case 2 => SectionState("data", FreshShdr(SHT_PROGBITS, SHF_ALLOC + SHF_WRITE, 0), NewProgbits())
    case 3 => SectionState("rodata", FreshShdr(SHT_PROGBITS, SHF_ALLOC, 0), NewProgbits())
    case 4 => SectionState("bss", FreshShdr(SHT_NOBITS, SHF_ALLOC + SHF_WRITE, 0), NewProgbits())
    case 5 => SectionState("text", FreshShdr(SHT_PROGBITS, SHF_ALLOC + SHF_EXECINSTR, 0), NewProgbits())
    case 6 => SectionState("init", FreshShdr(SHT_PROGBITS, SHF_ALLOC + SHF_EXECINSTR, 0), NewProgbits())
    case 7 => SectionState("symtab", FreshShdr(SHT_SYMTAB, SHF_ALLOC, SYM_SIZE), NewSymtab())
  }

  // The first k default sections, with their names in the section name table.
  function BootSections(k: nat): (r: seq<SectionState>)
    requires k <= 8
    ensures |r| == k
  {
    seq(k, i requires 0 <= i < k =>
      if i == 0 then DefaultSection(0).(contents := Strtab([""] + DEFAULT_NAMES[..k])) else DefaultSection(i))
  }

  // e_shstrndx is not initialised by the constructor.
  function Initial(shstrndx: uint16): ElfState {
    ElfState(FreshEhdr(shstrndx), BootSections(8), 0, 1, 0, 0, 7, {})
  }

  lemma BootBegins()
    ensures BootSections(0) == []
  {
  }

  lemma DefaultNames(k: nat)
    requires k < 8
    ensures DefaultSection(k).name == DEFAULT_NAMES[k]
  {
  }

  lemma DefaultNamesDiffer(i: nat, j: nat)
    requires i < j < 8
    ensures DEFAULT_NAMES[i] != DEFAULT_NAMES[j]
  {
  }

  lemma BootStep(st: ElfState, k: nat)
    requires k < 8 && st.shstrtabIdx == 0 && st.sections == BootSections(k)
    ensures AddSection(st, DefaultSection(k)) == Success(st.(sections := BootSections(k + 1)))
  {
    DefaultNames(k);
    forall i | 0 <= i < k
      ensures st.sections[i].name != DEFAULT_NAMES[k]
    {
      DefaultNames(i);
      DefaultNamesDiffer(i, k);
    }
    DefaultNamesDiffer(0, 1);
    assert k != 0 ==> DEFAULT_NAMES[k] != "shstrtab" by {
      if k != 0 {
        DefaultNamesDiffer(0, k);
      }
    }
    hide DefaultSection;
    DefaultNames(0);
    assert DEFAULT_NAMES[..k + 1] == DEFAULT_NAMES[..k] + [DEFAULT_NAMES[k]];
    assert [""] + DEFAULT_NAMES[..k + 1] == [""] + DEFAULT_NAMES[..k] + [DEFAULT_NAMES[k]];
    if k == 0 {
      ShstrtabIsStrtab();
      assert st.sections == [] && DEFAULT_NAMES[0] == "shstrtab";
      assert DEFAULT_NAMES[..0] == [] && [""] + DEFAULT_NAMES[..1] == [""] + [DEFAULT_NAMES[0]];
      assert st.sections + [PushString(DefaultSection(0), DEFAULT_NAMES[0])]
          == [PushString(DefaultSection(0), DEFAULT_NAMES[0])];
      assert BootSections(1) == [PushString(DefaultSection(0), DEFAULT_NAMES[0])];
    } else {
      ShstrtabIsStrtab();
      assert BootSections(k + 1)
          == BootSections(k)[0 := PushString(BootSections(k)[0], DEFAULT_NAMES[k])] + [DefaultSection(k)];
    }
  }

  lemma ShstrtabIsStrtab()
    ensures DefaultSection(0).contents == Strtab([""])
  {
  }

  // ---------- Invariants ----------

  function Names(sections: seq<SectionState>): (names: seq<string>)
    ensures |names| == |sections|
    ensures forall i | 0 <= i < |sections| :: names[i] == sections[i].name
  {
    seq(|sections|, i requires 0 <= i < |sections| => sections[i].name)
  }

  predicate DistinctNames(sections: seq<SectionState>) {
    forall i, j | 0 <= i < j < |sections| :: sections[i].name != sections[j].name
  }

  // The section name table lists the section names in order, and its header type marks it as
  // the first string table.
  predicate NamesListed(st: ElfState)
    requires Wired(st)
  {
    && st.sections[0].name == "shstrtab"
    && st.sections[0].header.stype == SHT_STRTAB
    && st.sections[0].contents.strings == [""] + Names(st.sections)
  }

  // The size of the strings with their terminators.
  function StringsSize(strings: seq<string>): nat {
    if strings == [] then 0 else StringsSize(strings[..|strings| - 1]) + |strings[|strings| - 1]| + 1
  }

  // What a linear search through the symbol table would find.
  function FoundNames(symbols: seq<Sym>, strings: seq<string>): set<string> {
    set i | 1 <= i < |symbols| && symbols[i].name < |strings| :: strings[symbols[i].name]
  }

  // Symbols name strings of the table, later symbols later strings, and no two the same name.
  predicate SymbolsIndexed(symbols: seq<Sym>, strings: seq<string>, names: set<string>) {
    && (forall i | 1 <= i < |symbols| :: 1 <= symbols[i].name < |strings|)
    && (forall i, j | 1 <= i < j < |symbols| :: symbols[i].name < symbols[j].name)
    && (forall i, j | 1 <= i < j < |symbols| :: strings[symbols[i].name] != strings[symbols[j].name])
    && names == FoundNames(symbols, strings)
  }

  // Everything that holds of the string table and the symbol table together. Past 2^32 strings
  // the 32-bit name index wraps and nothing more is claimed of it.
  predicate SymbolTableKept(st: ElfState)
    requires Wired(st)
  {
    var strings, symbols := Strings(st), Symbols(st);
    && |strings| >= 1 && strings[0] == ""
    && |symbols| >= 1 && symbols[0] == NULL_SYM
    && st.sections[1].header.size == W32(StringsSize(strings) - 1)
    && (|strings| <= TWO_TO_THE_32 ==> SymbolsIndexed(symbols, strings, st.symbolNames))
  }

  // The file header is completed only by the writer.
  predicate HasFreshHeader(st: ElfState) {
    st.header == FreshEhdr(st.header.shstrndx)
  }

  predicate Inv(st: ElfState) {
    && Wired(st)
    && HasFreshHeader(st)
    && DistinctNames(st.sections)
    && NamesListed(st)
    && SymbolTableKept(st)
  }

  lemma InitialInv(shstrndx: uint16)
    ensures Inv(Initial(shstrndx))
  {
    var st := Initial(shstrndx);
    assert DEFAULT_NAMES[..8] == DEFAULT_NAMES;
    forall i | 0 <= i < 8
      ensures st.sections[i].name == DEFAULT_NAMES[i]
    {
      DefaultNames(i);
    }
    assert Names(st.sections) == DEFAULT_NAMES;
    forall i, j | 0 <= i < j < 8
      ensures st.sections[i].name != st.sections[j].name
    {
      DefaultNamesDiffer(i, j);
    }
    assert StringsSize([""]) == 1;
  }

  lemma AddSectionKeepsInv(st: ElfState, section: SectionState)
    requires Inv(st) && AddSection(st, section).Success?
    ensures Inv(AddSection(st, section).value)
  {
    var after := AddSection(st, section).value;
    assert Names(after.sections) == Names(st.sections) + [section.name];
  }

  lemma SetSectionKeepsInv(st: ElfState, name: string)
    requires Inv(st) && SetSection(st, name).Success?
    ensures Inv(SetSection(st, name).value)
  {
  }

  lemma StringsSizePush(strings: seq<string>, s: string)
    ensures StringsSize(strings + [s]) == StringsSize(strings) + |s| + 1
  {
    assert (strings + [s])[..|strings|] == strings;
  }

  lemma W32Add(a: int, b: int)
    ensures W32(W32(a) + b) == W32(a + b)
  {
  }

  lemma AddStringKeepsInv(st: ElfState, s: string)
    requires Inv(st)
    ensures Inv(AddString(st, s))
  {
    var after := AddString(st, s);
    assert Names(after.sections) == Names(st.sections);
    StringsSizePush(Strings(st), s);
    W32Add(StringsSize(Strings(st)) - 1, |s| + 1);
    if |Strings(after)| <= TWO_TO_THE_32 {
      StringPushKeepsIndex(Symbols(st), Strings(st), st.symbolNames, s);
    }
  }

  lemma StringPushKeepsIndex(symbols: seq<Sym>, strings: seq<string>, names: set<string>, s: string)
    requires SymbolsIndexed(symbols, strings, names)
    ensures SymbolsIndexed(symbols, strings + [s], names)
  {
    var longer := strings + [s];
    assert forall i | 1 <= i < |symbols| :: longer[symbols[i].name] == strings[symbols[i].name];
    assert FoundNames(symbols, longer) == FoundNames(symbols, strings);
  }

  // A new symbol for a string just pushed.
  lemma SymbolPushKeepsIndex(symbols: seq<Sym>, strings: seq<string>, names: set<string>, sym: Sym, s: string)
    requires SymbolsIndexed(symbols, strings, names) && s !in names
    requires |symbols| >= 1 && |strings| >= 1 && sym.name == |strings|
    ensures SymbolsIndexed(symbols + [sym], strings + [s], names + {s})
  {
    StringPushKeepsIndex(symbols, strings, names, s);
    var longer, more := strings + [s], symbols + [sym];
    forall i | 1 <= i < |symbols|
      ensures longer[symbols[i].name] != s
    {
      assert strings[symbols[i].name] in FoundNames(symbols, strings);
    }
    assert FoundNames(more, longer) == FoundNames(symbols, longer) + {s} by {
      assert more[|symbols|] == sym;
      assert forall i | 1 <= i < |symbols| :: more[i] == symbols[i];
    }
  }

  lemma AddSymbolKeepsInv(st: ElfState, name: string, value: uint32, size: uint32, stype: byte, bind: byte,
                          visibility: byte)
    requires Inv(st) && AddSymbol(st, name, value, size, stype, bind, visibility).Success?
    ensures Inv(AddSymbol(st, name, value, size, stype, bind, visibility).value)
  {
    var after := AddSymbol(st, name, value, size, stype, bind, visibility).value;
    var sym := MakeSymbol(st, value, size, stype, bind, visibility);
    assert Names(after.sections) == Names(st.sections);
    StringsSizePush(Strings(st), name);
    W32Add(StringsSize(Strings(st)) - 1, |name| + 1);
    if |Strings(after)| <= TWO_TO_THE_32 {
      SymbolPushKeepsIndex(Symbols(st), Strings(st), st.symbolNames, sym, name);
    }
  }

  // ELF32_ST_INFO keeps binding and type apart.
  lemma SymbolInfo(st: ElfState, value: uint32, size: uint32, stype: byte, bind: byte, visibility: byte)
    requires Wired(st)
    ensures var info: int := MakeSymbol(st, value, size, stype, bind, visibility).info;
      info / 16 == bind % 16 && info % 16 == stype % 16
  {
    hide Strings;
    var b: int, t: int := bind, stype % 16;
    PackedNibbles(b / 16, b % 16, t);
  }

  lemma PackedNibbles(q: int, r: int, t: int)
    requires 0 <= r < 16 && 0 <= t < 16
    ensures (16 * (16 * q + r) + t) % 256 == 16 * r + t
    ensures (16 * r + t) / 16 == r && (16 * r + t) % 16 == t
  {
  }

  // The new symbol is the last one, carries what was asked for, and its name index leads to its
  // name; no section but the string table and the symbol table changes.
  lemma AddSymbolDefines(st: ElfState, name: string, value: uint32, size: uint32, stype: byte, bind: byte,
                         visibility: byte)
    requires Wired(st) && AddSymbol(st, name, value, size, stype, bind, visibility).Success?
    ensures Wired(AddSymbol(st, name, value, size, stype, bind, visibility).value)
    ensures var after := AddSymbol(st, name, value, size, stype, bind, visibility).value;
      && |Symbols(after)| == |Symbols(st)| + 1 && Symbols(st) <= Symbols(after)
      && var sym := Symbols(after)[|Symbols(st)|];
      && sym.value == value && sym.size == size
      && sym.info / 16 == bind % 16 && sym.info % 16 == stype % 16 && sym.other == visibility % 4
      && (st.currSection < 256 ==> sym.shndx == st.currSection)
      && (|Strings(st)| < TWO_TO_THE_32 ==> sym.name < |Strings(after)| && Strings(after)[sym.name] == name)
    ensures var after := AddSymbol(st, name, value, size, stype, bind, visibility).value;
      && |after.sections| == |st.sections|
      && forall i | 0 <= i < |st.sections| && i != 1 && i != 7 :: after.sections[i] == st.sections[i]
  {
    SymbolInfo(st, value, size, stype, bind, visibility);
    var sym := MakeSymbol(st, value, size, stype, bind, visibility);
    var after := AddSymbol(st, name, value, size, stype, bind, visibility).value;
    assert Symbols(after) == Symbols(st) + [sym];
    assert Strings(after) == Strings(st) + [name];
  }

  lemma AddProgbitsKeepsInv(st: ElfState, data: seq<byte>)
    requires Inv(st) && AddProgbits(st, data).Success?
    ensures Inv(AddProgbits(st, data).value)
  {
    assert Names(AddProgbits(st, data).value.sections) == Names(st.sections);
  }

  // ---------- What each operation does ----------

  // A section of a new name is appended as it is, and its name to the section name table; a
  // duplicate is refused.
  lemma AddSectionOutcome(st: ElfState, section: SectionState)
    requires Inv(st)
    ensures section.name in Names(st.sections) ==> AddSection(st, section) == Failure(ELFException)
    ensures section.name !in Names(st.sections) ==>
              && AddSection(st, section).Success?
              && var after := AddSection(st, section).value;
              && after == st.(sections := after.sections)
              && |after.sections| == |st.sections| + 1
              && after.sections[|st.sections|] == section
              && (forall i | 1 <= i < |st.sections| :: after.sections[i] == st.sections[i])
              && after.sections[0]
                 == st.sections[0].(contents := Strtab(st.sections[0].contents.strings + [section.name]))
  {
    hide DistinctNames, SymbolTableKept;
    if section.name in Names(st.sections) {
      var i :| 0 <= i < |st.sections| && Names(st.sections)[i] == section.name;
    }
  }

  // The section of that name becomes the current one; an unknown name is refused.
  lemma SetSectionOutcome(st: ElfState, name: string)
    ensures name !in Names(st.sections) ==> SetSection(st, name) == Failure(ELFException)
    ensures name in Names(st.sections) ==>
              && SetSection(st, name).Success?
              && var after := SetSection(st, name).value;
              && after == st.(currSection := after.currSection, currRelIdx := after.currRelIdx)
              && after.currSection < |st.sections| && st.sections[after.currSection].name == name
              && (if "rel" + name in Names(st.sections)
                  then after.currRelIdx < |st.sections| && st.sections[after.currRelIdx].name == "rel" + name
                  else after.currRelIdx == |st.sections|)
  {
    if name in Names(st.sections) {
      var i :| 0 <= i < |st.sections| && Names(st.sections)[i] == name;
    }
    if "rel" + name in Names(st.sections) {
      var i :| 0 <= i < |st.sections| && Names(st.sections)[i] == "rel" + name;
    }
  }

  // Bytes go to the end of the current section, if it holds program bytes, and nowhere else.
  lemma AddProgbitsOutcome(st: ElfState, data: seq<byte>)
    requires Wired(st)
    ensures !st.sections[st.currSection].contents.Progbits? ==> AddProgbits(st, data) == Failure(ELFException)
    ensures st.sections[st.currSection].contents.Progbits? ==>
              && AddProgbits(st, data).Success?
              && var c, after := st.currSection, AddProgbits(st, data).value;
              && after == st.(sections := after.sections) && |after.sections| == |st.sections|
              && after.sections[c].contents.Progbits?
              && after.sections[c].contents.data[..|st.sections[c].contents.data|] == st.sections[c].contents.data
              && after.sections[c].contents.data[|st.sections[c].contents.data|..] == data
              && after.sections[c] == st.sections[c].(contents := after.sections[c].contents)
              && (forall i | 0 <= i < |st.sections| && i != c :: after.sections[i] == st.sections[i])
  {
  }

  // A symbol is refused exactly if a search of the symbol table would find its name.
  lemma AddSymbolOutcome(st: ElfState, name: string, value: uint32, size: uint32, stype: byte, bind: byte,
                         visibility: byte)
    requires Inv(st) && Wired(st) && |Strings(st)| <= TWO_TO_THE_32
    ensures var found := exists i | 1 <= i < |Symbols(st)| ::
                           Symbols(st)[i].name < |Strings(st)| && Strings(st)[Symbols(st)[i].name] == name;
      if found then AddSymbol(st, name, value, size, stype, bind, visibility) == Failure(ELFException)
      else AddSymbol(st, name, value, size, stype, bind, visibility).Success?
  {
    hide DistinctNames, NamesListed;
    assert name in FoundNames(Symbols(st), Strings(st)) <==>
        exists i | 1 <= i < |Symbols(st)| ::
          Symbols(st)[i].name < |Strings(st)| && Strings(st)[Symbols(st)[i].name] == name;
  }

  // ---------- Runs ----------

  datatype Operation =
    | OpSection(section: SectionState)
    | OpSetSection(name: string)
    | OpSymbol(name: string, value: uint32, size: uint32, stype: byte, bind: byte, visibility: byte)
    | OpString(text: string)
    | OpProgbits(data: seq<byte>)

  function Step(st: ElfState, op: Operation): ElfResult
    requires Wired(st)
  {
    match op
    case OpSection(section) => AddSection(st, section)
    case OpSetSection(name) => SetSection(st, name)
    case OpSymbol(name, value, size, stype, bind, visibility) =>
      AddSymbol(st, name, value, size, stype, bind, visibility)
    case OpString(text) => Success(AddString(st, text))
    case OpProgbits(data) => AddProgbits(st, data)
  }

  lemma StepKeepsInv(st: ElfState, op: Operation)
    requires Inv(st) && Step(st, op).Success?
    ensures Inv(Step(st, op).value)
  {
    hide Inv;
    match op {
      case OpSection(section) => AddSectionKeepsInv(st, section);
      case OpSetSection(name) => SetSectionKeepsInv(st, name);
      case OpSymbol(name, value, size, stype, bind, visibility) =>
        AddSymbolKeepsInv(st, name, value, size, stype, bind, visibility);
      case OpString(text) => AddStringKeepsInv(st, text);
      case OpProgbits(data) => AddProgbitsKeepsInv(st, data);
    }
  }

  // `st` can be reached from a new object by `ops`; an operation that throws changes nothing
  // and the caller may go on.
  predicate Reaches(before: ElfState, ops: seq<Operation>, st: ElfState)
    decreases |ops|
  {
    if ops == [] then st == before
    else if !Wired(before) then false
    else match Step(before, ops[0])
      case Success(next) => Reaches(next, ops[1..], st)
      case Failure(_) => Reaches(before, ops[1..], st)
  }

  lemma {:induction false} ReachesKeepsInv(before: ElfState, ops: seq<Operation>, st: ElfState)
    requires Inv(before) && Reaches(before, ops, st)
    ensures Inv(st)
    decreases |ops|
  {
    hide Inv, Step;
    if ops != [] {
      match Step(before, ops[0]) {
        case Success(next) =>
          StepKeepsInv(before, ops[0]);
          ReachesKeepsInv(next, ops[1..], st);
        case Failure(_) =>
          ReachesKeepsInv(before, ops[1..], st);
      }
    }
  }

  // Whatever sequence of operations an object has been through, its invariants hold; in
  // particular the cached name set is what a search of the symbol table would find.
  lemma EveryRunKeepsInv(shstrndx: uint16, ops: seq<Operation>, st: ElfState)
    requires Reaches(Initial(shstrndx), ops, st)
    ensures Inv(st)
  {
    InitialInv(shstrndx);
    ReachesKeepsInv(Initial(shstrndx), ops, st);
  }

  // The same, spelled out for the symbol cache: it answers exactly like a linear search, and
  // no two symbols share a name or an index.
  lemma SymbolCacheAgrees(shstrndx: uint16, ops: seq<Operation>, st: ElfState, name: string)
    requires Reaches(Initial(shstrndx), ops, st)
    ensures Wired(st)
    ensures |Strings(st)| <= TWO_TO_THE_32 ==>
              (forall i | 1 <= i < |Symbols(st)| :: Symbols(st)[i].name < |Strings(st)|)
              && (name in st.symbolNames <==>
                  exists i | 1 <= i < |Symbols(st)| :: Strings(st)[Symbols(st)[i].name] == name)
    ensures |Strings(st)| <= TWO_TO_THE_32 ==>
              forall i, j | 1 <= i < j < |Symbols(st)| ::
                Symbols(st)[i].name != Symbols(st)[j].name
                && Strings(st)[Symbols(st)[i].name] != Strings(st)[Symbols(st)[j].name]
    ensures st.sections[1].header.size == W32(StringsSize(Strings(st)) - 1)
  {
    EveryRunKeepsInv(shstrndx, ops, st);
  }
}
