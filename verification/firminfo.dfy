/** The firmware header of firminfo.h and the header checks of
    `do_boot_lskernel` (bootls.c:88-140): the image starts with a 108-byte
    big-endian header; it must carry the "FLASH" sub-version magic and, when
    verification is asked for, a zero checksum. */
module FirmInfo {
  import opened CInt

  /** sizeof(struct firminfo): 4-byte aligned, no padding needed. */
  const HEADER_SIZE: nat := 108
  const NAME_SIZE: nat := 32

  /** The five characters "FLASH" compared against subver[0..4]. */
  const FLASH_MAGIC: seq<Byte> := [0x46, 0x4C, 0x41, 0x53, 0x48]

  datatype Info = Info(
    infoVer: U32, firmId: U32,
    firmName: seq<Byte>, subver: seq<Byte>,
    verMajor: nat, verMinor: nat, build: nat,
    year: Byte, mon: Byte, day: Byte, hour: Byte, min: Byte, sec: Byte,
    size: U32, chksum: U32,
    kernelOffset: U32, kernelSize: U32,
    initrdOffset: U32, initrdSize: U32)

  /** The header fields fit their C types. */
  predicate Valid(h: Info)
  {
    |h.firmName| == NAME_SIZE && |h.subver| == NAME_SIZE
    && h.verMajor < 0x1_0000 && h.verMinor < 0x1_0000 && h.build < 0x1_0000
  }

  /** The header as the PowerPC reads it through `struct firminfo *`:
      `unsigned long` fields at 0, 4, 84, ..., 104, the two 32-byte name
      arrays at 8 and 40, the `unsigned short` versions at 72-77 and the six
      date bytes at 78-83. */
  function Decode(mem: seq<Byte>): (h: Info)
    requires |mem| >= HEADER_SIZE
    ensures Valid(h)
  {
    Info(Be32At(mem, 0), Be32At(mem, 4),
         mem[8..40], mem[40..72],
         Be16At(mem, 72), Be16At(mem, 74), Be16At(mem, 76),
         mem[78], mem[79], mem[80], mem[81], mem[82], mem[83],
         Be32At(mem, 84), Be32At(mem, 88),
         Be32At(mem, 92), Be32At(mem, 96),
         Be32At(mem, 100), Be32At(mem, 104))
  }

  /** The header's bytes, laid out as the struct stores them. */
  function Encode(h: Info): (r: seq<Byte>)
    requires Valid(h)
    ensures |r| == HEADER_SIZE
  {
    Front(h) + Back(h)
  }

  /** Bytes 0-71: the two identifiers and the two name arrays. */
  function Front(h: Info): (r: seq<Byte>)
    requires Valid(h)
    ensures |r| == 72
  {
    Pair(h.infoVer, h.firmId) + h.firmName + h.subver
  }

  /** Bytes 72-107: versions and date, then the six size and offset
      words. */
  function Back(h: Info): (r: seq<Byte>)
    requires Valid(h)
    ensures |r| == 36
  {
    Version(h) + Pair(h.size, h.chksum) + Pair(h.kernelOffset, h.kernelSize)
    + Pair(h.initrdOffset, h.initrdSize)
  }

  /** Two `unsigned long` fields in a row. */
  function Pair(a: U32, b: U32): (r: seq<Byte>)
    ensures |r| == 8
  {
    BeBytes(a) + BeBytes(b)
  }

  /** The three `unsigned short` version fields and the six date bytes. */
  function Version(h: Info): (r: seq<Byte>)
    requires Valid(h)
    ensures |r| == 12
  {
    BeBytes16(h.verMajor) + BeBytes16(h.verMinor) + BeBytes16(h.build)
    + [h.year, h.mon, h.day, h.hour, h.min, h.sec]
  }

  /** Two encoded words at i decode to their values. */
  lemma PairDecode(s: seq<Byte>, i: nat, a: U32, b: U32)
    requires i + 8 <= |s| && s[i..i + 8] == Pair(a, b)
    ensures Be32At(s, i) == a && Be32At(s, i + 4) == b
  {
    var x, y := BeBytes(a), BeBytes(b);
    assert s[i] == x[0] && s[i + 1] == x[1] && s[i + 2] == x[2] && s[i + 3] == x[3];
    assert s[i + 4] == y[0] && s[i + 5] == y[1] && s[i + 6] == y[2] && s[i + 7] == y[3];
  }

  /** The version group at 72 decodes to its fields. */
  lemma VersionDecode(s: seq<Byte>, h: Info)
    requires Valid(h) && |s| >= 84 && s[72..84] == Version(h)
    ensures Be16At(s, 72) == h.verMajor && Be16At(s, 74) == h.verMinor && Be16At(s, 76) == h.build
    ensures s[78] == h.year && s[79] == h.mon && s[80] == h.day
    ensures s[81] == h.hour && s[82] == h.min && s[83] == h.sec
  {
    var x, y, z := BeBytes16(h.verMajor), BeBytes16(h.verMinor), BeBytes16(h.build);
    assert s[72] == x[0] && s[73] == x[1] && s[74] == y[0] && s[75] == y[1];
    assert s[76] == z[0] && s[77] == z[1];
    assert s[78..84] == [h.year, h.mon, h.day, h.hour, h.min, h.sec];
  }

  /** Where each group of fields sits in the encoding. */
  lemma EncodeLayout(h: Info, rest: seq<Byte>)
    requires Valid(h)
    ensures var e := Encode(h) + rest;
      && e[0..8] == Pair(h.infoVer, h.firmId) && e[8..40] == h.firmName && e[40..72] == h.subver
      && e[72..84] == Version(h) && e[84..92] == Pair(h.size, h.chksum)
      && e[92..100] == Pair(h.kernelOffset, h.kernelSize)
      && e[100..108] == Pair(h.initrdOffset, h.initrdSize)
  {
    var e := Encode(h) + rest;
    assert e[0..72] == Front(h);
    assert e[72..108] == Back(h);
    assert e[0..8] == e[0..72][0..8];
    assert e[8..40] == e[0..72][8..40];
    assert e[40..72] == e[0..72][40..72];
    assert e[72..84] == e[72..108][0..12];
    assert e[84..92] == e[72..108][12..20];
    assert e[92..100] == e[72..108][20..28];
    assert e[100..108] == e[72..108][28..36];
  }

  /** Reading back an encoded header, whatever follows it, gives the
      header. */
  lemma DecodeEncode(h: Info, rest: seq<Byte>)
    requires Valid(h)
    ensures Decode(Encode(h) + rest) == h
  {
    var e := Encode(h) + rest;
    EncodeLayout(h, rest);
    PairDecode(e, 0, h.infoVer, h.firmId);
    VersionDecode(e, h);
    PairDecode(e, 84, h.size, h.chksum);
    PairDecode(e, 92, h.kernelOffset, h.kernelSize);
    PairDecode(e, 100, h.initrdOffset, h.initrdSize);
  }

  /** Re-encoding two words read at i gives back their bytes. */
  lemma PairEncode(s: seq<Byte>, i: nat)
    requires i + 8 <= |s|
    ensures Pair(Be32At(s, i), Be32At(s, i + 4)) == s[i..i + 8]
  {
    Be32Injective(s[i..i + 4]);
    Be32Injective(s[i + 4..i + 8]);
    assert s[i..i + 8] == s[i..i + 4] + s[i + 4..i + 8];
  }

  lemma FrontEncode(mem: seq<Byte>)
    requires |mem| >= HEADER_SIZE
    ensures Front(Decode(mem)) == mem[0..72]
  {
    PairEncode(mem, 0);
    assert mem[0..72] == mem[0..8] + mem[8..40] + mem[40..72];
  }

  lemma BackEncode(mem: seq<Byte>)
    requires |mem| >= HEADER_SIZE
    ensures Back(Decode(mem)) == mem[72..108]
  {
    Be16Injective(mem[72..74]);
    Be16Injective(mem[74..76]);
    Be16Injective(mem[76..78]);
    assert mem[72..84] == mem[72..74] + mem[74..76] + mem[76..78] + mem[78..84];
    PairEncode(mem, 84);
    PairEncode(mem, 92);
    PairEncode(mem, 100);
    assert mem[72..108] == mem[72..84] + mem[84..92] + mem[92..100] + mem[100..108];
  }

  /** The first 108 bytes of memory are the encoding of the header read
      from them. */
  lemma EncodeDecode(mem: seq<Byte>)
    requires |mem| >= HEADER_SIZE
    ensures Encode(Decode(mem)) == mem[..HEADER_SIZE]
  {
    FrontEncode(mem);
    BackEncode(mem);
    assert mem[..HEADER_SIZE] == mem[0..72] + mem[72..108];
  }

  /** The image is a Linkstation kernel: the first five sub-version bytes
      spell "FLASH"; what follows them, terminator included, is not looked
      at. */
  predicate HasMagic(h: Info)
    requires Valid(h)
  {
    h.subver[..5] == FLASH_MAGIC
  }

  /** The loop of bootls.c:116-120, comparing subver[i] with "FLASH"[i] for
      i from 0 to 4 and stopping at the first difference. */
  method MagicCheck(subver: seq<Byte>) returns (ok: bool)
    requires |subver| >= 5
    ensures ok <==> subver[..5] == FLASH_MAGIC
  {
    var i := 0;
    while i <= 4
      invariant 0 <= i <= 5
      invariant forall j :: 0 <= j < i ==> subver[j] == FLASH_MAGIC[j]
    {
      if subver[i] != FLASH_MAGIC[i] {
        return false;
      }
      i := i + 1;
    }
    assert subver[..5] == FLASH_MAGIC;
    return true;
  }
}
