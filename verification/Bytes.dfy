// Byte orders: a little-endian host's memory, big-endian fields in the file, and the byte swap
// between them (include/swap_helpers.hpp).
module Bytes {
  import opened Ast
  import opened ElfModel

  function Le16(x: uint16): (b: seq<byte>)
    ensures |b| == 2
  {
    [x % 256, x / 256]
  }

  function Le32(x: uint32): (b: seq<byte>)
    ensures |b| == 4
  {
    Le16(x % TWO_TO_THE_16) + Le16(x / TWO_TO_THE_16)
  }

  function Be16(x: uint16): (b: seq<byte>)
    ensures |b| == 2
  {
    [x / 256, x % 256]
  }

  function Be32(x: uint32): (b: seq<byte>)
    ensures |b| == 4
  {
    Be16(x / TWO_TO_THE_16) + Be16(x % TWO_TO_THE_16)
  }

  function FromBe16(b: seq<byte>): uint16
    requires |b| == 2
  {
    256 * (b[0] as int) + b[1] as int
  }

  function FromBe32(b: seq<byte>): uint32
    requires |b| == 4
  {
    TWO_TO_THE_16 * (FromBe16(b[..2]) as int) + FromBe16(b[2..]) as int
  }

  // __builtin_bswap16 and __builtin_bswap32.
  function Swap16(x: uint16): uint16 {
    FromBe16(Le16(x))
  }

  function Swap32(x: uint32): uint32 {
    FromBe32(Le32(x))
  }

  lemma Be16RoundTrip(x: uint16)
    ensures FromBe16(Be16(x)) == x
  {
  }

  lemma Be32RoundTrip(x: uint32)
    ensures FromBe32(Be32(x)) == x
  {
    Be16RoundTrip(x / TWO_TO_THE_16);
    Be16RoundTrip(x % TWO_TO_THE_16);
    hide Be16, FromBe16;
    assert Be32(x)[..2] == Be16(x / TWO_TO_THE_16) && Be32(x)[2..] == Be16(x % TWO_TO_THE_16);
  }

  lemma Swap16IsBigEndian(x: uint16)
    ensures Le16(Swap16(x)) == Be16(x)
  {
  }

  lemma Halves(hi: uint16, lo: uint16)
    ensures (TWO_TO_THE_16 * hi + lo) / TWO_TO_THE_16 == hi && (TWO_TO_THE_16 * hi + lo) % TWO_TO_THE_16 == lo
  {
  }

  // A swapped field written from a little-endian memory is the field in big-endian order.
  lemma Swap32IsBigEndian(x: uint32)
    ensures Le32(Swap32(x)) == Be32(x)
  {
    var hi: uint16, lo: uint16 := x / TWO_TO_THE_16, x % TWO_TO_THE_16;
    Swap16IsBigEndian(hi);
    Swap16IsBigEndian(lo);
    hide Le16, Be16, FromBe16;
    assert Le32(x)[..2] == Le16(lo) && Le32(x)[2..] == Le16(hi);
    Halves(Swap16(lo), Swap16(hi));
  }

  // ---------- Headers in memory and in the file ----------

  function SwapEhdr(h: Ehdr): Ehdr {
    Ehdr(h.ident, Swap16(h.etype), Swap16(h.machine), Swap32(h.version), Swap32(h.entry), Swap32(h.phoff),
         Swap32(h.shoff), Swap32(h.flags), Swap16(h.ehsize), Swap16(h.phentsize), Swap16(h.phnum),
         Swap16(h.shentsize), Swap16(h.shnum), Swap16(h.shstrndx))
  }

  function SwapShdr(h: Shdr): Shdr {
    Shdr(Swap32(h.name), Swap32(h.stype), Swap32(h.flags), Swap32(h.addr), Swap32(h.offset), Swap32(h.size),
         Swap32(h.link), Swap32(h.info), Swap32(h.addralign), Swap32(h.entsize))
  }

  function EhdrMemory(h: Ehdr): seq<byte> {
    h.ident + Le16(h.etype) + Le16(h.machine) + Le32(h.version) + Le32(h.entry) + Le32(h.phoff) + Le32(h.shoff)
    + Le32(h.flags) + Le16(h.ehsize) + Le16(h.phentsize) + Le16(h.phnum) + Le16(h.shentsize) + Le16(h.shnum)
    + Le16(h.shstrndx)
  }

  function EhdrBytes(h: Ehdr): seq<byte> {
    h.ident + Be16(h.etype) + Be16(h.machine) + Be32(h.version) + Be32(h.entry) + Be32(h.phoff) + Be32(h.shoff)
    + Be32(h.flags) + Be16(h.ehsize) + Be16(h.phentsize) + Be16(h.phnum) + Be16(h.shentsize) + Be16(h.shnum)
    + Be16(h.shstrndx)
  }

  function ShdrMemory(h: Shdr): (r: seq<byte>)
    ensures |r| == SHDR_SIZE
  {
    Le32(h.name) + Le32(h.stype) + Le32(h.flags) + Le32(h.addr) + Le32(h.offset) + Le32(h.size) + Le32(h.link)
    + Le32(h.info) + Le32(h.addralign) + Le32(h.entsize)
  }

  function ShdrBytes(h: Shdr): (r: seq<byte>)
    ensures |r| == SHDR_SIZE
  {
    Be32(h.name) + Be32(h.stype) + Be32(h.flags) + Be32(h.addr) + Be32(h.offset) + Be32(h.size) + Be32(h.link)
    + Be32(h.info) + Be32(h.addralign) + Be32(h.entsize)
  }

  // Symbols are written as they lie in memory.
  function SymMemory(s: Sym): (r: seq<byte>)
    ensures |r| == SYM_SIZE
  {
    Le32(s.name) + Le32(s.value) + Le32(s.size) + [s.info] + [s.other] + Le16(s.shndx)
  }

  lemma SwappedShdrIsBigEndian(h: Shdr)
    ensures ShdrMemory(SwapShdr(h)) == ShdrBytes(h)
  {
    Swap32IsBigEndian(h.name);
    Swap32IsBigEndian(h.stype);
    Swap32IsBigEndian(h.flags);
    Swap32IsBigEndian(h.addr);
    Swap32IsBigEndian(h.offset);
    Swap32IsBigEndian(h.size);
    Swap32IsBigEndian(h.link);
    Swap32IsBigEndian(h.info);
    Swap32IsBigEndian(h.addralign);
    Swap32IsBigEndian(h.entsize);
    hide Le32, Be32, Swap32;
  }

  lemma SwappedEhdrIsBigEndian(h: Ehdr)
    ensures EhdrMemory(SwapEhdr(h)) == EhdrBytes(h)
  {
    Swap16IsBigEndian(h.etype);
    Swap16IsBigEndian(h.machine);
    Swap32IsBigEndian(h.version);
    Swap32IsBigEndian(h.entry);
    Swap32IsBigEndian(h.phoff);
    Swap32IsBigEndian(h.shoff);
    Swap32IsBigEndian(h.flags);
    Swap16IsBigEndian(h.ehsize);
    Swap16IsBigEndian(h.phentsize);
    Swap16IsBigEndian(h.phnum);
    Swap16IsBigEndian(h.shentsize);
    Swap16IsBigEndian(h.shnum);
    Swap16IsBigEndian(h.shstrndx);
    hide Le16, Le32, Be16, Be32, Swap16, Swap32;
  }

  // ---------- Reading big-endian headers back ----------

  function Field32(b: seq<byte>, at: nat): uint32
    requires at + 4 <= |b|
  {
    FromBe32(b[at..at + 4])
  }

  function Field16(b: seq<byte>, at: nat): uint16
    requires at + 2 <= |b|
  {
    FromBe16(b[at..at + 2])
  }

  function ReadShdr(b: seq<byte>): Shdr
    requires |b| == SHDR_SIZE
  {
    Shdr(Field32(b, 0), Field32(b, 4), Field32(b, 8), Field32(b, 12), Field32(b, 16), Field32(b, 20),
         Field32(b, 24), Field32(b, 28), Field32(b, 32), Field32(b, 36))
  }

  function ReadEhdr(b: seq<byte>): Ehdr
    requires |b| == EHDR_SIZE
  {
    Ehdr(b[..16], Field16(b, 16), Field16(b, 18), Field32(b, 20), Field32(b, 24), Field32(b, 28), Field32(b, 32),
         Field32(b, 36), Field16(b, 40), Field16(b, 42), Field16(b, 44), Field16(b, 46), Field16(b, 48),
         Field16(b, 50))
  }

  lemma ShdrRoundTrip(h: Shdr)
    ensures ReadShdr(ShdrBytes(h)) == h
  {
    hide Be32, FromBe32;
    var b := ShdrBytes(h);
    assert b[0..4] == Be32(h.name) && b[4..8] == Be32(h.stype) && b[8..12] == Be32(h.flags);
    assert b[12..16] == Be32(h.addr) && b[16..20] == Be32(h.offset) && b[20..24] == Be32(h.size);
    assert b[24..28] == Be32(h.link) && b[28..32] == Be32(h.info);
    assert b[32..36] == Be32(h.addralign) && b[36..40] == Be32(h.entsize);
    Be32RoundTrip(h.name);
    Be32RoundTrip(h.stype);
    Be32RoundTrip(h.flags);
    Be32RoundTrip(h.addr);
    Be32RoundTrip(h.offset);
    Be32RoundTrip(h.size);
    Be32RoundTrip(h.link);
    Be32RoundTrip(h.info);
    Be32RoundTrip(h.addralign);
    Be32RoundTrip(h.entsize);
  }

  lemma EhdrRoundTrip(h: Ehdr)
    requires |h.ident| == 16
    ensures |EhdrBytes(h)| == EHDR_SIZE
    ensures ReadEhdr(EhdrBytes(h)) == h
  {
    hide Be16, Be32, FromBe16, FromBe32;
    var b := EhdrBytes(h);
    assert b[..16] == h.ident && b[16..18] == Be16(h.etype) && b[18..20] == Be16(h.machine);
    assert b[20..24] == Be32(h.version) && b[24..28] == Be32(h.entry) && b[28..32] == Be32(h.phoff);
    assert b[32..36] == Be32(h.shoff) && b[36..40] == Be32(h.flags) && b[40..42] == Be16(h.ehsize);
    assert b[42..44] == Be16(h.phentsize) && b[44..46] == Be16(h.phnum) && b[46..48] == Be16(h.shentsize);
    assert b[48..50] == Be16(h.shnum) && b[50..52] == Be16(h.shstrndx);
    Be16RoundTrip(h.etype);
    Be16RoundTrip(h.machine);
    Be32RoundTrip(h.version);
    Be32RoundTrip(h.entry);
    Be32RoundTrip(h.phoff);
    Be32RoundTrip(h.shoff);
    Be32RoundTrip(h.flags);
    Be16RoundTrip(h.ehsize);
    Be16RoundTrip(h.phentsize);
    Be16RoundTrip(h.phnum);
    Be16RoundTrip(h.shentsize);
    Be16RoundTrip(h.shnum);
    Be16RoundTrip(h.shstrndx);
  }
}
