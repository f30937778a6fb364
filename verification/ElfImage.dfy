// The bytes of an object file, and the proof that its headers describe them.
module ElfImage {
  import opened Wrappers
  import opened Ast
  import opened ElfModel
  import opened Bytes

  // ---------- Section bodies ----------

  // A C++ char is one byte.
  function CharByte(c: char): byte {
    c as int % 256
  }

  function StringBytes(s: string): (b: seq<byte>)
    ensures |b| == |s|
  {
    seq(|s|, i requires 0 <= i < |s| => CharByte(s[i]))
  }

  // The strings, each with its terminator.
  function CStrings(strings: seq<string>): seq<byte> {
    if strings == [] then []
    else CStrings(strings[..|strings| - 1]) + StringBytes(strings[|strings| - 1]) + [0]
  }

  function SymbolBytes(symbols: seq<Sym>): seq<byte> {
    if symbols == [] then []
    else SymbolBytes(symbols[..|symbols| - 1]) + SymMemory(symbols[|symbols| - 1])
  }

  // What a section's write() puts out.
  function Body(contents: Contents): seq<byte> {
    match contents
    case Progbits(data) => data
    case Strtab(strings) => CStrings(strings)
    case Symtab(symbols) => SymbolBytes(symbols)
  }

  function Bodies(sections: seq<SectionState>): seq<byte> {
    if sections == [] then []
    else Bodies(sections[..|sections| - 1]) + Body(sections[|sections| - 1].contents)
  }

  // ---------- Section sizes ----------

  const TWO_TO_THE_64 := 0x1_0000_0000_0000_0000

  function ToSizeT(x: int): nat {
    x % TWO_TO_THE_64
  }

  function ToInt(x: int): int {
    (x + 0x8000_0000) % TWO_TO_THE_32 - 0x8000_0000
  }

  // std::accumulate over a string table starts from the int 0, so every partial sum passes
  // through an int.
  function Accumulated(strings: seq<string>): int {
    if strings == [] then 0
    else ToInt(ToSizeT(Accumulated(strings[..|strings| - 1])) + |strings[|strings| - 1]| + 1)
  }

  // A section's size().
  function SizeOf(contents: Contents): nat {
    match contents
    case Progbits(data) => |data|
    case Strtab(strings) => ToSizeT(Accumulated(strings))
    case Symtab(symbols) => SYM_SIZE * |symbols|
  }

  lemma {:induction false} CStringsLength(strings: seq<string>)
    ensures |CStrings(strings)| == StringsSize(strings)
  {
    if strings != [] {
      CStringsLength(strings[..|strings| - 1]);
    }
  }

  lemma {:induction false} SymbolBytesLength(symbols: seq<Sym>)
    ensures |SymbolBytes(symbols)| == SYM_SIZE * |symbols|
  {
    if symbols != [] {
      SymbolBytesLength(symbols[..|symbols| - 1]);
    }
  }

  lemma W32Multiple(a: int, k: int)
    ensures W32(a + TWO_TO_THE_32 * k) == W32(a)
  {
  }

  lemma ConversionsKeepLow32(x: int)
    ensures W32(ToSizeT(x)) == W32(x) && W32(ToInt(x)) == W32(x)
  {
    var q := x / TWO_TO_THE_64;
    assert ToSizeT(x) == x + TWO_TO_THE_32 * (-(TWO_TO_THE_32 * q));
    W32Multiple(x, -(TWO_TO_THE_32 * q));
    var p := (x + 0x8000_0000) / TWO_TO_THE_32;
    assert ToInt(x) == x + TWO_TO_THE_32 * -p;
    W32Multiple(x, -p);
  }

  lemma {:induction false} AccumulatedLow32(strings: seq<string>)
    ensures W32(Accumulated(strings)) == W32(StringsSize(strings))
  {
    if strings != [] {
      var init, last := strings[..|strings| - 1], strings[|strings| - 1];
      AccumulatedLow32(init);
      hide ToSizeT, ToInt, W32;
      ConversionsKeepLow32(Accumulated(init));
      ConversionsKeepLow32(ToSizeT(Accumulated(init)) + |last| + 1);
      W32Add(ToSizeT(Accumulated(init)), |last| + 1);
      W32Add(StringsSize(init), |last| + 1);
    }
  }

  // The detour through int never shows in 32 bits: size() agrees with the bytes written.
  lemma SizeIsLength(contents: Contents)
    ensures W32(SizeOf(contents)) == W32(|Body(contents)|)
  {
    match contents {
      case Progbits(_) =>
      case Strtab(strings) =>
        CStringsLength(strings);
        AccumulatedLow32(strings);
        ConversionsKeepLow32(Accumulated(strings));
      case Symtab(symbols) =>
        SymbolBytesLength(symbols);
    }
  }

  // ---------- The file ----------

  // The index of the first section whose header says string table.
  function FirstStrtab(sections: seq<SectionState>): (i: nat)
    ensures i <= |sections|
    ensures i < |sections| ==> sections[i].header.stype == SHT_STRTAB
    ensures forall j | 0 <= j < i :: sections[j].header.stype != SHT_STRTAB
  {
    if sections == [] || sections[0].header.stype == SHT_STRTAB then 0 else 1 + FirstStrtab(sections[1..])
  }

  function FinalEhdr(st: ElfState): Ehdr {
    st.header.(
      shoff := EHDR_SIZE,
      shnum := W16(|st.sections|),
      shstrndx := W16(FirstStrtab(st.sections) + 1))
  }

  // Where the k-th name starts in a table that lists an empty string and then the names.
  function NameOffset(sections: seq<SectionState>, k: nat): nat
    requires k <= |sections|
  {
    1 + StringsSize(Names(sections[..k]))
  }

  // Where the k-th body starts in the file: behind the ELF header, the null header and all the
  // section headers.
  function Offset(sections: seq<SectionState>, k: nat): nat
    requires k <= |sections|
  {
    EHDR_SIZE + SHDR_SIZE * (|sections| + 1) + |Bodies(sections[..k])|
  }

  function FinalShdr(sections: seq<SectionState>, k: nat): Shdr
    requires k < |sections|
  {
    sections[k].header.(
      name := W32(NameOffset(sections, k)),
      size := W32(|Body(sections[k].contents)|),
      offset := W32(Offset(sections, k)))
  }

  function HeaderTable(sections: seq<SectionState>, k: nat): (r: seq<byte>)
    requires k <= |sections|
    ensures |r| == SHDR_SIZE * k
  {
    if k == 0 then [] else HeaderTable(sections, k - 1) + ShdrBytes(FinalShdr(sections, k - 1))
  }

  function NullShdr(): Shdr {
    Shdr(0, 0, 0, 0, 0, 0, 0, 0, 0, 0)
  }

  function Image(st: ElfState): seq<byte> {
    EhdrBytes(FinalEhdr(st)) + ShdrBytes(NullShdr()) + HeaderTable(st.sections, |st.sections|) + Bodies(st.sections)
  }

  // The stored headers after a write: completed and byte-swapped in place.
  function Written(st: ElfState): ElfState {
    st.(header := SwapEhdr(FinalEhdr(st)),
        sections := seq(|st.sections|, i requires 0 <= i < |st.sections| =>
                        st.sections[i].(header := SwapShdr(FinalShdr(st.sections, i)))))
  }

  // ---------- Prefixes of the file ----------

  lemma SliceOfPrefix<T>(a: seq<T>, m: seq<T>, b: seq<T>)
    requires a + m <= b
    ensures |a| + |m| <= |b| && b[|a|..|a| + |m|] == m
  {
    assert (a + m)[|a|..] == m;
    assert b[|a|..|a| + |m|] == b[..|a| + |m|][|a|..];
  }

  // The file up to and including the k-th header of the table proper.
  function Headers(st: ElfState, k: nat): seq<byte>
    requires k <= |st.sections|
  {
    EhdrBytes(FinalEhdr(st)) + ShdrBytes(NullShdr()) + HeaderTable(st.sections, k)
  }

  lemma {:induction false} HeadersPrefix(st: ElfState, k: nat, count: nat)
    requires k <= count <= |st.sections|
    ensures Headers(st, k) <= Headers(st, count)
    decreases count
  {
    hide Headers;
    if k < count {
      HeadersPrefix(st, k, count - 1);
      HeadersNext(st, count - 1);
    }
  }

  lemma HeadersNext(st: ElfState, k: nat)
    requires k < |st.sections|
    ensures Headers(st, k + 1) == Headers(st, k) + ShdrBytes(FinalShdr(st.sections, k))
  {
    hide EhdrBytes, ShdrBytes, FinalEhdr, FinalShdr;
  }

  lemma {:induction false} BodiesPrefix(sections: seq<SectionState>, k: nat)
    requires k <= |sections|
    ensures Bodies(sections[..k]) <= Bodies(sections)
    decreases |sections| - k
  {
    hide Bodies;
    if k < |sections| {
      BodiesPrefix(sections, k + 1);
      BodiesNext(sections, k);
    } else {
      assert sections[..k] == sections;
    }
  }

  lemma BodiesNext(sections: seq<SectionState>, k: nat)
    requires k < |sections|
    ensures Bodies(sections[..k + 1]) == Bodies(sections[..k]) + Body(sections[k].contents)
  {
    assert sections[..k + 1][..k] == sections[..k];
  }

  lemma ImageIsHeadersAndBodies(st: ElfState)
    ensures Image(st) == Headers(st, |st.sections|) + Bodies(st.sections)
  {
  }

  lemma HeadersLength(st: ElfState, k: nat)
    requires HasFreshHeader(st) && k <= |st.sections|
    ensures |Headers(st, k)| == EHDR_SIZE + SHDR_SIZE * (k + 1)
  {
    EhdrRoundTrip(FinalEhdr(st));
    hide EhdrBytes, ShdrBytes, FinalEhdr;
  }

  // ---------- Reading a file ----------

  function FileHeader(image: seq<byte>): Option<Ehdr> {
    if |image| >= EHDR_SIZE then Some(ReadEhdr(image[..EHDR_SIZE])) else None
  }

  function ShdrAt(image: seq<byte>, at: nat): Option<Shdr> {
    if at + SHDR_SIZE <= |image| then Some(ReadShdr(image[at..at + SHDR_SIZE])) else None
  }

  function EntryOffset(shoff: nat, shentsize: nat, k: nat): nat {
    shoff + shentsize * k
  }

  // The k-th entry of the section header table, entry 0 being the null header.
  function Entry(image: seq<byte>, k: nat): Option<Shdr> {
    match FileHeader(image)
    case Some(e) => ShdrAt(image, EntryOffset(e.shoff, e.shentsize, k))
    case None => None
  }

  // The bytes a header points at.
  function Window(image: seq<byte>, h: Shdr): Option<seq<byte>> {
    if h.offset + h.size <= |image| then Some(image[h.offset..h.offset + h.size]) else None
  }

  lemma FileHeaderIsFinal(st: ElfState)
    requires HasFreshHeader(st)
    ensures FileHeader(Image(st)) == Some(FinalEhdr(st))
  {
    hide ReadEhdr, EhdrBytes, ShdrBytes, HeaderTable, Bodies;
    var h := FinalEhdr(st);
    EhdrRoundTrip(h);
    assert Image(st)[..EHDR_SIZE] == EhdrBytes(h);
  }

  lemma EntryIsFinalShdr(st: ElfState, k: nat)
    requires HasFreshHeader(st) && k < |st.sections|
    ensures Entry(Image(st), k + 1) == Some(FinalShdr(st.sections, k))
  {
    hide Image, Headers, ReadShdr, ShdrBytes, FinalShdr, Bodies;
    var h := FinalShdr(st.sections, k);
    ShdrRoundTrip(h);
    FileHeaderIsFinal(st);
    hide FileHeader;
    HeadersLength(st, k);
    HeadersNext(st, k);
    HeadersPrefix(st, k + 1, |st.sections|);
    ImageIsHeadersAndBodies(st);
    SliceOfPrefix(Headers(st, k), ShdrBytes(h), Image(st));
  }

  // ---------- Layout ----------

  // On a first write of fewer than 2^32 bytes, header k names exactly the window of the file
  // that holds section k's bytes, and keeps the section's other attributes.
  lemma LayoutHolds(st: ElfState, k: nat)
    requires HasFreshHeader(st) && k < |st.sections| && |Image(st)| < TWO_TO_THE_32
    ensures Entry(Image(st), k + 1).Some?
    ensures var h := Entry(Image(st), k + 1).value;
      && h.offset == Offset(st.sections, k)
      && Window(Image(st), h) == Some(Body(st.sections[k].contents))
      && h == st.sections[k].header.(name := h.name, offset := h.offset, size := h.size)
  {
    hide Image, Bodies, Body, Entry, Offset, NameOffset;
    EntryIsFinalShdr(st, k);
    BodyInImage(st, k);
  }

  // The table starts with the null entry.
  lemma NullEntryFirst(st: ElfState)
    requires HasFreshHeader(st)
    ensures Entry(Image(st), 0) == Some(NullShdr())
  {
    hide Image, ReadShdr, ShdrBytes, EhdrBytes, FileHeader, Bodies;
    ShdrRoundTrip(NullShdr());
    FileHeaderIsFinal(st);
    EhdrRoundTrip(FinalEhdr(st));
    HeadersPrefix(st, 0, |st.sections|);
    ImageIsHeadersAndBodies(st);
    assert HeaderTable(st.sections, 0) == [];
    SliceOfPrefix(EhdrBytes(FinalEhdr(st)), ShdrBytes(NullShdr()), Image(st));
  }

  lemma ImageLength(st: ElfState)
    requires HasFreshHeader(st)
    ensures |Image(st)| == Offset(st.sections, |st.sections|)
  {
    ImageIsHeadersAndBodies(st);
    HeadersLength(st, |st.sections|);
    assert st.sections[..|st.sections|] == st.sections;
  }

  lemma BodyInImage(st: ElfState, k: nat)
    requires HasFreshHeader(st) && k < |st.sections|
    ensures var at, body := Offset(st.sections, k), Body(st.sections[k].contents);
      at + |body| <= |Image(st)| && Image(st)[at..at + |body|] == body
  {
    hide Image, Headers, Bodies, Body;
    ImageIsHeadersAndBodies(st);
    HeadersLength(st, |st.sections|);
    BodiesNext(st.sections, k);
    BodiesPrefix(st.sections, k + 1);
    var headers, before := Headers(st, |st.sections|), Bodies(st.sections[..k]);
    SliceOfPrefix(headers + before, Body(st.sections[k].contents), Image(st));
  }

  // The windows follow one another without gap or overlap, from the end of the header table to
  // the end of the file.
  lemma WindowsTile(st: ElfState, k: nat)
    requires HasFreshHeader(st) && k < |st.sections|
    ensures Offset(st.sections, 0) == EHDR_SIZE + SHDR_SIZE * (|st.sections| + 1)
    ensures Offset(st.sections, k) + |Body(st.sections[k].contents)| == Offset(st.sections, k + 1)
    ensures Offset(st.sections, |st.sections|) == |Image(st)|
  {
    ImageLength(st);
    BodiesNext(st.sections, k);
    assert st.sections[..0] == [];
  }

  // ---------- Section names ----------

  predicate NulFree(s: string) {
    forall i | 0 <= i < |s| :: CharByte(s[i]) != 0
  }

  // The bytes from a position up to the next terminator.
  function CStringAt(b: seq<byte>, at: nat): Option<seq<byte>>
    decreases |b| - at
  {
    if at >= |b| then None
    else if b[at] == 0 then Some([])
    else match CStringAt(b, at + 1)
      case Some(rest) => Some([b[at]] + rest)
      case None => None
  }

  lemma {:induction false} CStringAtReads(b: seq<byte>, at: nat, s: seq<byte>)
    requires at + |s| < |b| && b[at..at + |s|] == s && b[at + |s|] == 0
    requires forall i | 0 <= i < |s| :: s[i] != 0
    ensures CStringAt(b, at) == Some(s)
    decreases |s|
  {
    if s != [] {
      assert b[at] == b[at..at + |s|][0];
      assert b[at + 1..at + |s|] == b[at..at + |s|][1..];
      CStringAtReads(b, at + 1, s[1..]);
      assert s == [s[0]] + s[1..];
    }
  }

  lemma CStringsNext(strings: seq<string>, k: nat)
    requires k < |strings|
    ensures CStrings(strings[..k + 1]) == CStrings(strings[..k]) + (StringBytes(strings[k]) + [0])
  {
    assert strings[..k + 1][..k] == strings[..k];
  }

  lemma SymbolBytesNext(symbols: seq<Sym>, k: nat)
    requires k < |symbols|
    ensures SymbolBytes(symbols[..k + 1]) == SymbolBytes(symbols[..k]) + SymMemory(symbols[k])
  {
    assert symbols[..k + 1][..k] == symbols[..k];
  }

  lemma EmptyTables()
    ensures CStrings([]) == [] && SymbolBytes([]) == []
  {
  }

  lemma {:induction false} CStringsPrefix(strings: seq<string>, k: nat)
    requires k <= |strings|
    ensures CStrings(strings[..k]) <= CStrings(strings)
    decreases |strings| - k
  {
    hide CStrings;
    if k < |strings| {
      CStringsPrefix(strings, k + 1);
      CStringsNext(strings, k);
    } else {
      assert strings[..k] == strings;
    }
  }

  // Each string of a table can be read at the size of the strings before it.
  lemma StringInTable(strings: seq<string>, k: nat)
    requires k < |strings| && NulFree(strings[k])
    ensures CStringAt(CStrings(strings), StringsSize(strings[..k])) == Some(StringBytes(strings[k]))
  {
    hide CStrings, CStringAt;
    CStringsPrefix(strings, k + 1);
    CStringsNext(strings, k);
    CStringsLength(strings[..k]);
    var b, before, s := CStrings(strings), CStrings(strings[..k]), StringBytes(strings[k]);
    SliceOfPrefix(before, s + [0], b);
    var w := b[|before|..|before| + |s| + 1];
    assert w == s + [0] && w[..|s|] == s && w[|s|] == 0;
    assert b[|before|..|before| + |s|] == w[..|s|];
    CStringAtReads(b, |before|, s);
  }

  lemma {:induction false} StringsSizeCons(s: string, strings: seq<string>)
    ensures StringsSize([s] + strings) == |s| + 1 + StringsSize(strings)
  {
    var all := [s] + strings;
    if strings == [] {
      assert all[..0] == [];
    } else {
      var init := strings[..|strings| - 1];
      StringsSizeCons(s, init);
      assert all[..|all| - 1] == [s] + init;
    }
  }

  // The name of the section behind entry k, as a reader finds it: through the name table that
  // e_shstrndx selects, at the offset the entry gives.
  function SectionName(image: seq<byte>, k: nat): Option<seq<byte>> {
    match (FileHeader(image), Entry(image, k))
    case (Some(e), Some(h)) =>
      (match Entry(image, e.shstrndx)
       case Some(names) =>
         (match Window(image, names)
          case Some(table) => CStringAt(table, h.name)
          case None => None)
       case None => None)
    case _ => None
  }

  lemma NameTableFound(st: ElfState)
    requires Inv(st) && |Image(st)| < TWO_TO_THE_32
    ensures FileHeader(Image(st)).Some? && FileHeader(Image(st)).value.shstrndx == 1
    ensures Entry(Image(st), 1).Some?
    ensures Window(Image(st), Entry(Image(st), 1).value) == Some(CStrings([""] + Names(st.sections)))
  {
    hide Image, Entry, Window, CStrings, FileHeader;
    FileHeaderIsFinal(st);
    assert FirstStrtab(st.sections) == 0;
    LayoutHolds(st, 0);
  }

  lemma NameOffsetInTable(sections: seq<SectionState>, k: nat)
    requires k < |sections|
    ensures NameOffset(sections, k) == StringsSize(([""] + Names(sections))[..k + 1])
    ensures ([""] + Names(sections))[k + 1] == sections[k].name
  {
    hide StringsSize;
    var table := [""] + Names(sections);
    assert table[..k + 1] == [""] + Names(sections[..k]);
    StringsSizeCons("", Names(sections[..k]));
  }

  lemma {:induction false} StringsSizeGrows(strings: seq<string>, k: nat)
    requires k <= |strings|
    ensures StringsSize(strings[..k]) <= StringsSize(strings)
    decreases |strings| - k
  {
    if k < |strings| {
      StringsSizeGrows(strings, k + 1);
      assert strings[..k + 1][..k] == strings[..k];
    } else {
      assert strings[..k] == strings;
    }
  }

  lemma NameTableFits(st: ElfState)
    requires Inv(st)
    ensures StringsSize([""] + Names(st.sections)) <= |Image(st)|
  {
    hide Image;
    BodyInImage(st, 0);
    CStringsLength([""] + Names(st.sections));
  }

  // On a first write of fewer than 2^32 bytes, every section's name, if free of NULs, is what a
  // reader finds for its header, whichever operations built the object.
  lemma SectionNamesResolve(st: ElfState, k: nat)
    requires Inv(st) && |Image(st)| < TWO_TO_THE_32
    requires k < |st.sections| && NulFree(st.sections[k].name)
    ensures SectionName(Image(st), k + 1) == Some(StringBytes(st.sections[k].name))
  {
    hide Image, Inv, Entry, Window, CStrings, CStringAt, FileHeader, StringsSize, NulFree, NameOffset;
    var table := [""] + Names(st.sections);
    NameTableFound(st);
    InvHasFreshHeader(st);
    EntryIsFinalShdr(st, k);
    NameOffsetInTable(st.sections, k);
    NameTableFits(st);
    StringsSizeGrows(table, k + 1);
    StringInTable(table, k + 1);
  }

  lemma InvHasFreshHeader(st: ElfState)
    requires Inv(st)
    ensures HasFreshHeader(st)
  {
  }

  // The two together, for every object that any sequence of operations can build.
  lemma AnyRunIsLaidOut(shstrndx: uint16, ops: seq<Operation>, st: ElfState, k: nat)
    requires Reaches(Initial(shstrndx), ops, st) && k < |st.sections|
    requires |Image(st)| < TWO_TO_THE_32
    ensures Entry(Image(st), k + 1).Some?
    ensures Window(Image(st), Entry(Image(st), k + 1).value) == Some(Body(st.sections[k].contents))
    ensures NulFree(st.sections[k].name) ==>
              SectionName(Image(st), k + 1) == Some(StringBytes(st.sections[k].name))
  {
    hide Inv, Image, Entry, Window, SectionName, NulFree, Reaches;
    EveryRunKeepsInv(shstrndx, ops, st);
    InvHasFreshHeader(st);
    LayoutHolds(st, k);
    if NulFree(st.sections[k].name) {
      SectionNamesResolve(st, k);
    }
  }

  // e_shnum counts the sections but not the null entry in front of them, so a reader that
  // trusts it stops short of the last section's header, which is there all the same.
  lemma ShnumMissesLast(st: ElfState)
    requires Inv(st) && |Image(st)| < TWO_TO_THE_32 && |st.sections| < TWO_TO_THE_16
    ensures FileHeader(Image(st)).Some?
    ensures FileHeader(Image(st)).value.shnum == |st.sections|
    ensures var last := |st.sections|;
      Entry(Image(st), last) == Some(FinalShdr(st.sections, last - 1))
  {
    hide Image, Entry, FileHeader;
    FileHeaderIsFinal(st);
    EntryIsFinalShdr(st, |st.sections| - 1);
  }

  // Writing the same object again: the stored section types are still swapped from the first
  // time, so e_shstrndx points behind the table unless some type was a string table's reversed.
  lemma SecondWriteLosesNames(st: ElfState)
    requires Inv(st)
    ensures FinalEhdr(Written(st)).shstrndx == W16(FirstStrtab(Written(st).sections) + 1)
    ensures FirstStrtab(Written(st).sections) == |st.sections|
            <==> forall k | 0 <= k < |st.sections| :: st.sections[k].header.stype != REVERSED_STRTAB
  {
    hide Inv, Swap32, Swap16, SwapEhdr, Offset, NameOffset, SizeOf, W16, W32;
    var after := Written(st).sections;
    forall k | 0 <= k < |after|
      ensures after[k].header.stype == SHT_STRTAB <==> st.sections[k].header.stype == REVERSED_STRTAB
    {
      SwappedStrtab(st.sections[k].header.stype);
    }
  }

  const REVERSED_STRTAB: uint32 := 0x0300_0000

  lemma SwappedStrtab(t: uint32)
    ensures Swap32(t) == SHT_STRTAB <==> t == REVERSED_STRTAB
  {
    Be32RoundTrip(t);
    Swap32IsBigEndian(t);
    assert Le32(SHT_STRTAB) == [3, 0, 0, 0];
    assert FromBe32([3, 0, 0, 0]) == REVERSED_STRTAB;
    assert Le32(REVERSED_STRTAB) == [0, 0, 0, 3];
  }
}
