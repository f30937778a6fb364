// The two passes of the ELF writer (src/elf_writer.cpp), proved to put out the file image.
module ElfWriter {
  import opened Ast
  import opened ElfModel
  import opened Bytes
  import opened ElfImage
  import opened Elf

  lemma NameOffsetNext(sections: seq<SectionState>, k: nat)
    requires k < |sections|
    ensures NameOffset(sections, k + 1) == NameOffset(sections, k) + |sections[k].name| + 1
  {
    assert Names(sections[..k + 1]) == Names(sections[..k]) + [sections[k].name];
    StringsSizePush(Names(sections[..k]), sections[k].name);
  }

  lemma OffsetNext(sections: seq<SectionState>, k: nat)
    requires k < |sections|
    ensures Offset(sections, k + 1) == Offset(sections, k) + |Body(sections[k].contents)|
  {
    BodiesNext(sections, k);
  }

  lemma OffsetsStart(sections: seq<SectionState>)
    ensures W32(NameOffset(sections, 0)) == 1
    ensures Offset(sections, 0) == EHDR_SIZE + SHDR_SIZE * (|sections| + 1)
    ensures HeaderTable(sections, 0) == []
  {
    assert sections[..0] == [] && Names([]) == [];
  }

  // The running file offset after one more section: off_t plus size_t, seen through uint32_t.
  lemma OffsetStep(sections: seq<SectionState>, k: nat, offs: int)
    requires k < |sections| && W32(offs) == W32(Offset(sections, k))
    ensures W32(ToSizeT(offs + SizeOf(sections[k].contents))) == W32(Offset(sections, k + 1))
  {
    hide W32, ToSizeT, Offset, SizeOf;
    OffsetNext(sections, k);
    SizeIsLength(sections[k].contents);
    ConversionsKeepLow32(offs + SizeOf(sections[k].contents));
    W32Sum(offs, SizeOf(sections[k].contents), Offset(sections, k), |Body(sections[k].contents)|);
  }

  lemma W32Sum(a: int, b: int, c: int, d: int)
    requires W32(a) == W32(c) && W32(b) == W32(d)
    ensures W32(a + b) == W32(c + d)
  {
    W32Add(a, b);
    W32Add(b, W32(a));
    W32Add(c, d);
    W32Add(d, W32(c));
  }

  // Zeros need no swap.
  lemma NullShdrBytes()
    ensures ShdrMemory(NullShdr()) == ShdrBytes(NullShdr())
  {
    assert Le32(0) == Be32(0);
  }

  lemma {:induction false} BodiesIgnoreHeaders(s: seq<SectionState>, t: seq<SectionState>)
    requires |s| == |t| && forall i | 0 <= i < |s| :: s[i].contents == t[i].contents
    ensures Bodies(s) == Bodies(t)
  {
    if s != [] {
      BodiesIgnoreHeaders(s[..|s| - 1], t[..|t| - 1]);
    }
  }

  lemma NoBodies(sections: seq<SectionState>)
    ensures Bodies(sections[..0]) == []
  {
  }

  lemma HeaderTableNext(sections: seq<SectionState>, k: nat, before: seq<byte>)
    requires k < |sections|
    ensures before + HeaderTable(sections, k + 1)
         == before + HeaderTable(sections, k) + ShdrBytes(FinalShdr(sections, k))
  {
    hide ShdrBytes, FinalShdr;
  }

  lemma StatesAt(sections: seq<Section>)
    ensures forall i | 0 <= i < |sections| :: States(sections)[i] == sections[i].State()
  {
  }

  lemma Concatenated(a: seq<byte>, e: seq<byte>, n: seq<byte>, h: seq<byte>, b: seq<byte>)
    ensures a + e + n + h + b == a + (e + n + h + b)
  {
  }

  class ELFWriter {
    const elf: ELF

    constructor (elf: ELF)
      ensures this.elf == elf
    {
      this.elf := elf;
    }

    // std::find_if over the sections by header type.
    method FindStrtab() returns (i: nat)
      ensures i == FirstStrtab(elf.State().sections)
    {
      i := 0;
      while i < |elf.sections| && elf.sections[i].header.stype != SHT_STRTAB
        invariant i <= |elf.sections|
        invariant forall j | 0 <= j < i :: elf.sections[j].header.stype != SHT_STRTAB
      {
        i := i + 1;
      }
      assert forall j | 0 <= j < |elf.sections| ::
          elf.State().sections[j].header.stype == elf.sections[j].header.stype;
    }

    // The file header, completed, swapped in place and written.
    method WriteFileHeader(os: OStream)
      modifies elf`header, os
      ensures elf.header == SwapEhdr(FinalEhdr(old(elf.State())))
      ensures os.bytes == old(os.bytes) + EhdrBytes(FinalEhdr(old(elf.State())))
    {
      hide Swap16, Swap32;
      var strtab := FindStrtab();
      elf.header := elf.header.(
        shoff := EHDR_SIZE, shnum := W16(|elf.sections|), shstrndx := W16(strtab + 1));
      SwappedEhdrIsBigEndian(elf.header);
      elf.header := SwapEhdr(elf.header);
      os.Write(EhdrMemory(elf.header));
    }

    // The first pass: every section header, completed, swapped in place and written.
    method WriteSectionHeaders(os: OStream)
      requires elf.Separate()
      modifies elf.sections, os
      ensures elf.State().sections == Written(old(elf.State())).sections
      ensures var sections := old(elf.State()).sections;
        os.bytes == old(os.bytes) + ShdrBytes(NullShdr()) + HeaderTable(sections, |sections|)
    {
      hide NameOffset, Offset, HeaderTable, SwapShdr, ShdrBytes, ShdrMemory, W32, ToSizeT, SizeOf, Body, States;
      ghost var before := elf.State().sections;
      ghost var nullEntry := ShdrBytes(NullShdr());
      StatesAt(elf.sections);
      var sectionOffs: int := EHDR_SIZE + |elf.sections| * SHDR_SIZE;
      NullShdrBytes();
      os.Write(ShdrMemory(NullShdr()));
      sectionOffs := sectionOffs + SHDR_SIZE;
      var shName: uint32 := 1;
      OffsetsStart(before);
      for i := 0 to |elf.sections|
        invariant shName == W32(NameOffset(before, i))
        invariant W32(sectionOffs) == W32(Offset(before, i))
        invariant os.bytes == old(os.bytes) + nullEntry + HeaderTable(before, i)
        invariant forall j | 0 <= j < i ::
            elf.sections[j].State() == before[j].(header := SwapShdr(FinalShdr(before, j)))
        invariant forall j | i <= j < |elf.sections| :: elf.sections[j].State() == before[j]
      {
        var section := elf.sections[i];
        var size := section.Size();
        OffsetStep(before, i, sectionOffs);
        SizeIsLength(section.contents);
        var hdr := section.header.(name := shName, size := W32(size), offset := W32(sectionOffs));
        assert hdr == FinalShdr(before, i);
        NameOffsetNext(before, i);
        W32Add(NameOffset(before, i), |section.name| + 1);
        shName := W32(shName + |section.name| + 1);
        sectionOffs := ToSizeT(sectionOffs + size);
        SwappedShdrIsBigEndian(hdr);
        section.header := SwapShdr(hdr);
        os.Write(ShdrMemory(section.header));
        HeaderTableNext(before, i, old(os.bytes) + nullEntry);
      }
      StatesAt(elf.sections);
    }

    // The second pass: every section body.
    method WriteBodies(os: OStream)
      modifies os
      ensures os.bytes == old(os.bytes) + Bodies(elf.State().sections)
    {
      hide Bodies, Body, States;
      ghost var sections := elf.State().sections;
      StatesAt(elf.sections);
      NoBodies(sections);
      for i := 0 to |elf.sections|
        invariant os.bytes == old(os.bytes) + Bodies(sections[..i])
      {
        elf.sections[i].Write(os);
        BodiesNext(sections, i);
      }
      assert sections[..|sections|] == sections;
    }

    // Whatever the object, the file image goes out and the stored headers end up swapped.
    method Write(os: OStream)
      requires elf.Separate()
      modifies elf`header, elf.sections, os
      ensures elf.State() == Written(old(elf.State()))
      ensures os.bytes == old(os.bytes) + Image(old(elf.State()))
    {
      hide States, EhdrBytes, ShdrBytes, HeaderTable, Bodies, FinalEhdr, Swap16, Swap32;
      ghost var st := elf.State();
      WriteFileHeader(os);
      WriteSectionHeaders(os);
      WriteBodies(os);
      BodiesIgnoreHeaders(Written(st).sections, st.sections);
      Concatenated(old(os.bytes), EhdrBytes(FinalEhdr(st)), ShdrBytes(NullShdr()),
                   HeaderTable(st.sections, |st.sections|), Bodies(st.sections));
    }
  }
}
