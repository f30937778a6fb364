// The ELF object and its sections as mutable objects (src/elf.cpp, include/elf.hpp), each
// method proved against the state it is specified to leave.
module Elf {
  import opened Wrappers
  import opened Ast
  import opened M = ElfModel
  import opened Bytes
  import opened ElfImage

  // An output stream, by the bytes that have gone into it.
  class OStream {
    var bytes: seq<byte>

    constructor ()
      ensures bytes == []
    {
      bytes := [];
    }

    method Write(data: seq<byte>)
      modifies this
      ensures bytes == old(bytes) + data
    {
      bytes := bytes + data;
    }
  }

  // A section owns its header and its contents; what kind it is shows in the contents.
  class Section {
    const name: string
    var header: Shdr
    var contents: Contents

    constructor (name: string, header: Shdr, contents: Contents)
      ensures State() == SectionState(name, header, contents)
    {
      this.name, this.header, this.contents := name, header, contents;
    }

    function State(): SectionState
      reads this
    {
      SectionState(name, header, contents)
    }

    // size() of the three section kinds.
    method Size() returns (size: nat)
      ensures size == SizeOf(contents)
    {
      match contents {
        case Progbits(data) =>
          size := |data|;
        case Strtab(strings) =>
          var total := 0;
          assert strings[..0] == [];
          for i := 0 to |strings|
            invariant total == Accumulated(strings[..i])
          {
            total := ToInt(ToSizeT(total) + |strings[i]| + 1);
            assert strings[..i + 1][..i] == strings[..i];
          }
          assert strings[..|strings|] == strings;
          size := ToSizeT(total);
        case Symtab(symbols) =>
          size := SYM_SIZE * |symbols|;
      }
    }

    // write() of the three section kinds.
    method Write(os: OStream)
      modifies os
      ensures os.bytes == old(os.bytes) + Body(contents)
    {
      hide CStrings, SymbolBytes, StringBytes, SymMemory;
      EmptyTables();
      match contents {
        case Progbits(data) =>
          os.Write(data);
        case Strtab(strings) =>
          assert strings[..0] == [];
          for i := 0 to |strings|
            invariant os.bytes == old(os.bytes) + CStrings(strings[..i])
          {
            os.Write(StringBytes(strings[i]));
            os.Write([0]);
            CStringsNext(strings, i);
          }
          assert strings[..|strings|] == strings;
        case Symtab(symbols) =>
          assert symbols[..0] == [];
          for i := 0 to |symbols|
            invariant os.bytes == old(os.bytes) + SymbolBytes(symbols[..i])
          {
            os.Write(SymMemory(symbols[i]));
            SymbolBytesNext(symbols, i);
          }
          assert symbols[..|symbols|] == symbols;
      }
    }
  }

  function States(sections: seq<Section>): (states: seq<SectionState>)
    reads sections
    ensures |states| == |sections|
  {
    seq(|sections|, i requires 0 <= i < |sections| reads sections => sections[i].State())
  }

  class ELF {
    var header: Ehdr
    var sections: seq<Section>
    var shstrtabIdx: nat
    var strtabIdx: nat
    var currSection: nat
    var currRelIdx: nat
    var currSymtabIdx: nat
    var symbolNames: set<string>

    function State(): ElfState
      reads this, sections
    {
      ElfState(header, States(sections), shstrtabIdx, strtabIdx, currSection, currRelIdx, currSymtabIdx, symbolNames)
    }

    // Every section is owned once.
    ghost predicate Separate()
      reads this
    {
      forall i, j | 0 <= i < j < |sections| :: sections[i] != sections[j]
    }

    ghost predicate Valid()
      reads this, sections
    {
      Separate() && Inv(State())
    }

    // The section holding the section names, once it exists.
    ghost function NameTable(): set<Section>
      reads this
    {
      if shstrtabIdx < |sections| then {sections[shstrtabIdx]} else {}
    }

    constructor (shstrndx: uint16)
      ensures Valid() && State() == Initial(shstrndx)
      ensures forall i | 0 <= i < |sections| :: fresh(sections[i])
    {
      header := FreshEhdr(shstrndx);
      sections := [];
      shstrtabIdx, strtabIdx, currSection, currRelIdx, currSymtabIdx := 0, 0, 0, 0, 0;
      symbolNames := {};
      new;
      assert States(sections) == [];
      AddDefaultSections();
      InitialInv(shstrndx);
    }

    // The constructor's sections.
    method AddDefaultSections()
      requires sections == [] && shstrtabIdx == 0
      modifies this
      ensures Separate() && |sections| == 8
      ensures State() == old(State()).(sections := BootSections(8), strtabIdx := 1, currSymtabIdx := 7)
      ensures forall i | 0 <= i < |sections| :: fresh(sections[i])
    {
      BootBegins();
      assert States(sections) == [] && Separate();
      hide BootSections, States, Separate;
      shstrtabIdx := |sections|;
      AddDefault("shstrtab", FreshShdr(SHT_STRTAB, 0, 0), NewStrtab(), 0);
      strtabIdx := |sections|;
      AddDefault("strtab", FreshShdr(SHT_STRTAB, 0, 0), NewStrtab(), 1);
      AddProgramSections();
      currSymtabIdx := |sections|;
      AddDefault("symtab", FreshShdr(SHT_SYMTAB, SHF_ALLOC, SYM_SIZE), NewSymtab(), 7);
    }

    method AddProgramSections()
      requires Separate() && shstrtabIdx == 0 && State().sections == BootSections(2)
      modifies this`sections, NameTable()
      ensures Separate() && |sections| == 7
      ensures State() == old(State()).(sections := BootSections(7))
      ensures forall i | 0 <= i < 2 :: sections[i] == old(sections)[i]
      ensures forall i | 2 <= i < 7 :: fresh(sections[i])
    {
      hide BootSections, States, Separate;
      AddDefault("data", FreshShdr(SHT_PROGBITS, SHF_ALLOC + SHF_WRITE, 0), NewProgbits(), 2);
      assert forall i | 2 <= i < |sections| :: fresh(sections[i]);
      AddDefault("rodata", FreshShdr(SHT_PROGBITS, SHF_ALLOC, 0), NewProgbits(), 3);
      assert forall i | 2 <= i < |sections| :: fresh(sections[i]);
      AddDefault("bss", FreshShdr(SHT_NOBITS, SHF_ALLOC + SHF_WRITE, 0), NewProgbits(), 4);
      assert forall i | 2 <= i < |sections| :: fresh(sections[i]);
      AddDefault("text", FreshShdr(SHT_PROGBITS, SHF_ALLOC + SHF_EXECINSTR, 0), NewProgbits(), 5);
      assert forall i | 2 <= i < |sections| :: fresh(sections[i]);
      AddDefault("init", FreshShdr(SHT_PROGBITS, SHF_ALLOC + SHF_EXECINSTR, 0), NewProgbits(), 6);
      assert forall i | 2 <= i < |sections| :: fresh(sections[i]);
    }

    // One step of the constructor.
    method AddDefault(name: string, header: Shdr, contents: Contents, ghost k: nat)
      requires Separate() && shstrtabIdx == 0
      requires k < 8 && SectionState(name, header, contents) == DefaultSection(k)
      requires State().sections == BootSections(k)
      modifies this`sections, NameTable()
      ensures Separate()
      ensures |sections| == old(|sections|) + 1 && fresh(sections[old(|sections|)])
      ensures forall i | 0 <= i < old(|sections|) :: sections[i] == old(sections)[i]
      ensures State() == old(State()).(sections := BootSections(k + 1))
    {
      hide Inv, BootSections, DefaultSection, M.AddSection, States;
      var added := new Section(name, header, contents);
      BootStep(State(), k);
      var _ := AddSection(added);
    }

    // std::find_if over the sections by name.
    method FindSection(name: string) returns (i: nat)
      ensures i == IndexOf(State().sections, name)
    {
      i := 0;
      while i < |sections| && sections[i].name != name
        invariant i <= |sections|
        invariant forall j | 0 <= j < i :: sections[j].name != name
      {
        i := i + 1;
      }
      assert forall j | 0 <= j < |sections| :: State().sections[j].name == sections[j].name;
    }

    // Valid() is kept: the new state is M.AddSection's, to which AddSectionKeepsInv applies.
    method AddSection(section: Section) returns (r: Result<(), ElfError>)
      requires Separate() && section !in sections
      modifies this`sections, section, NameTable()
      ensures Separate()
      ensures match M.AddSection(old(State()), old(section.State()))
              case Success(st) => r == Success(()) && State() == st && sections == old(sections) + [section]
              case Failure(e) => r == Failure(e) && State() == old(State()) && sections == old(sections)
    {
      var found := FindSection(section.name);
      if found < |sections| {
        return Failure(ELFException);
      }
      var shstrtab := section;
      if section.name != "shstrtab" {
        if shstrtabIdx >= |sections| {
          return Failure(OutOfRange);
        }
        shstrtab := sections[shstrtabIdx];
      }
      if !shstrtab.contents.Strtab? {
        return Failure(BadCast);
      }
      shstrtab.contents := Strtab(shstrtab.contents.strings + [section.name]);
      sections := sections + [section];
      assert State().sections == M.AddSection(old(State()), old(section.State())).value.sections;
      r := Success(());
    }

    method SetSection(name: string) returns (r: Result<(), ElfError>)
      requires Valid()
      modifies this
      ensures Valid() && sections == old(sections)
      ensures match M.SetSection(old(State()), name)
              case Success(st) => r == Success(()) && State() == st
              case Failure(e) => r == Failure(e) && State() == old(State())
    {
      var i := FindSection(name);
      if i == |sections| {
        return Failure(ELFException);
      }
      hide Inv, States;
      SetSectionKeepsInv(State(), name);
      var rel := FindSection("rel" + name);
      currSection := i;
      currRelIdx := rel;
      r := Success(());
    }

    method AddString(s: string)
      requires Valid()
      modifies this, sections
      ensures Valid() && sections == old(sections)
      ensures State() == M.AddString(old(State()), s)
    {
      AddStringKeepsInv(State(), s);
      var table := sections[strtabIdx];
      assert table.State() == State().sections[1];
      table.contents := Strtab(table.contents.strings + [s]);
      table.header := table.header.(size := W32(table.header.size + |s| + 1));
      assert State().sections == M.AddString(old(State()), s).sections;
    }

    method AddSymbol(name: string, value: uint32, size: uint32, stype: byte, bind: byte, visibility: byte)
      returns (r: Result<(), ElfError>)
      requires Valid()
      modifies this, sections
      ensures Valid() && sections == old(sections)
      ensures match M.AddSymbol(old(State()), name, value, size, stype, bind, visibility)
              case Success(st) => r == Success(()) && State() == st
              case Failure(e) => r == Failure(e) && State() == old(State())
    {
      if name in symbolNames {
        return Failure(ELFException);
      }
      AddSymbolKeepsInv(State(), name, value, size, stype, bind, visibility);
      symbolNames := symbolNames + {name};
      var table, strtab := sections[currSymtabIdx], sections[strtabIdx];
      assert strtab.State() == old(State()).sections[1] && table.State() == old(State()).sections[7];
      var nameIdx := W32(|strtab.contents.strings|);
      strtab.contents := Strtab(strtab.contents.strings + [name]);
      strtab.header := strtab.header.(size := W32(strtab.header.size + |name| + 1));
      var sym := Sym(nameIdx, value, size, (bind * 16 + stype % 16) % 256, visibility % 4, currSection % 256);
      table.contents := Symtab(table.contents.symbols + [sym]);
      assert State().sections
          == M.AddSymbol(old(State()), name, value, size, stype, bind, visibility).value.sections;
      r := Success(());
    }

    method AddProgbits(data: seq<byte>) returns (r: Result<(), ElfError>)
      requires Valid()
      modifies this, sections
      ensures Valid() && sections == old(sections)
      ensures match M.AddProgbits(old(State()), data)
              case Success(st) => r == Success(()) && State() == st
              case Failure(e) => r == Failure(e) && State() == old(State())
    {
      var section := sections[currSection];
      assert section.State() == State().sections[currSection];
      if !section.contents.Progbits? {
        return Failure(ELFException);
      }
      AddProgbitsKeepsInv(State(), data);
      section.contents := Progbits(section.contents.data + data);
      assert State().sections == M.AddProgbits(old(State()), data).value.sections;
      r := Success(());
    }
  }
}
