/** The CFI identity block (`struct cfi_ident`, flash.c:91-114) and the
    probe `cfi_probe_chip` (flash.c:273-350). The block is the byte sequence
    the chip presents from query offset 10h on, in the layout of the Common
    Flash Interface query structure (JEDEC JESD68); its 16- and 32-bit
    fields are little-endian on the wire. */
module Cfi {
  import opened CInt
  import opened Bus

  const MAX_ERASE_REGIONS: nat := 4

  /** sizeof(struct cfi_ident): the packed structure with room for four
      erase-region words. */
  const IDENT_SIZE: nat := 45

  /** Offset of NumEraseRegions and of the first erase-region word inside
      the block. */
  const NUM_REGIONS_AT: nat := 28
  const REGIONS_AT: nat := 29

  /** The identity block after byte-swapping; `regions` holds the
      NumEraseRegions erase-region words. */
  datatype Ident = Ident(
    qry: seq<Byte>,
    pId: nat, pAdr: nat, aId: nat, aAdr: nat,
    vccMin: Byte, vccMax: Byte, vppMin: Byte, vppMax: Byte,
    wordWriteTyp: Byte, bufWriteTyp: Byte, blockEraseTyp: Byte, chipEraseTyp: Byte,
    wordWriteMax: Byte, bufWriteMax: Byte, blockEraseMax: Byte, chipEraseMax: Byte,
    devSize: Byte, interfaceDesc: nat, maxBufWriteSize: nat,
    regions: seq<nat>)

  /** Every field fits its width in the structure. */
  predicate WellFormed(id: Ident)
  {
    && |id.qry| == 3
    && id.pId < 0x1_0000 && id.pAdr < 0x1_0000 && id.aId < 0x1_0000 && id.aAdr < 0x1_0000
    && id.interfaceDesc < 0x1_0000 && id.maxBufWriteSize < 0x1_0000
    && |id.regions| < 0x100
    && forall i :: 0 <= i < |id.regions| ==> id.regions[i] < TWO32
  }

  /** Sector size and sector count of an erase-region word (flash.c:553-554). */
  function RegionSize(info: nat): nat
  {
    AlignDown(info / 0x100, 0x100)
  }

  function RegionCount(info: nat): (r: nat)
    ensures r >= 1
  {
    info % 0x1_0000 + 1
  }

  /** Sum over the regions of (count + 1), as `scount` (flash.c:330-337). */
  function SectorTotal(regions: seq<nat>): nat
  {
    if regions == [] then 0 else RegionCount(regions[0]) + SectorTotal(regions[1..])
  }

  /** The 28 header bytes that precede NumEraseRegions on the wire. */
  function EncodeHeader(id: Ident): (r: seq<Byte>)
    requires WellFormed(id)
    ensures |r| == NUM_REGIONS_AT
  {
    [id.qry[0], id.qry[1], id.qry[2],
     id.pId % 0x100, id.pId / 0x100, id.pAdr % 0x100, id.pAdr / 0x100,
     id.aId % 0x100, id.aId / 0x100, id.aAdr % 0x100, id.aAdr / 0x100,
     id.vccMin, id.vccMax, id.vppMin, id.vppMax,
     id.wordWriteTyp, id.bufWriteTyp, id.blockEraseTyp, id.chipEraseTyp,
     id.wordWriteMax, id.bufWriteMax, id.blockEraseMax, id.chipEraseMax,
     id.devSize, id.interfaceDesc % 0x100, id.interfaceDesc / 0x100,
     id.maxBufWriteSize % 0x100, id.maxBufWriteSize / 0x100]
  }

  function Le32Bytes(x: nat): seq<Byte>
    requires x < TWO32
  {
    [x % 0x100, (x / 0x100) % 0x100, (x / 0x1_0000) % 0x100, x / 0x100_0000]
  }

  function EncodeRegions(rs: seq<nat>): (r: seq<Byte>)
    requires forall i :: 0 <= i < |rs| ==> rs[i] < TWO32
    ensures |r| == 4 * |rs|
  {
    if rs == [] then [] else Le32Bytes(rs[0]) + EncodeRegions(rs[1..])
  }

  /** The wire image of an identity block: what the chip presents from 10h. */
  function Encode(id: Ident): (r: seq<Byte>)
    requires WellFormed(id)
    ensures |r| == REGIONS_AT + 4 * |id.regions|
    ensures r[NUM_REGIONS_AT] == |id.regions|
  {
    EncodeHeader(id) + [|id.regions|] + EncodeRegions(id.regions)
  }

  /** NumEraseRegions as the wire shows it. */
  function NumRegions(raw: seq<Byte>): nat
    requires |raw| > NUM_REGIONS_AT
  {
    raw[NUM_REGIONS_AT]
  }

  /** Wire bytes a block of NumEraseRegions regions occupies. */
  predicate Complete(raw: seq<Byte>)
  {
    |raw| > NUM_REGIONS_AT && |raw| >= REGIONS_AT + 4 * NumRegions(raw)
  }

  /** Erase-region word i, byte-swapped (flash.c:332). */
  function RegionAt(raw: seq<Byte>, i: nat): (r: nat)
    requires REGIONS_AT + 4 * i + 3 < |raw|
    ensures r < TWO32
  {
    Le32(raw[REGIONS_AT + 4 * i], raw[REGIONS_AT + 4 * i + 1],
         raw[REGIONS_AT + 4 * i + 2], raw[REGIONS_AT + 4 * i + 3])
  }

  function DecodeRegions(raw: seq<Byte>): (rs: seq<nat>)
    requires Complete(raw)
    ensures |rs| == NumRegions(raw)
    ensures forall i :: 0 <= i < |rs| ==> rs[i] == RegionAt(raw, i) && rs[i] < TWO32
  {
    seq(NumRegions(raw), i requires 0 <= i < NumRegions(raw) => RegionAt(raw, i))
  }

  /** Byte-swapping of the block read from the chip (flash.c:318-323, 332). */
  function Decode(raw: seq<Byte>): (id: Ident)
    requires Complete(raw)
    ensures WellFormed(id)
    ensures |id.regions| == NumRegions(raw)
  {
    Ident(
      raw[0..3],
      Le16(raw[3], raw[4]), Le16(raw[5], raw[6]), Le16(raw[7], raw[8]), Le16(raw[9], raw[10]),
      raw[11], raw[12], raw[13], raw[14],
      raw[15], raw[16], raw[17], raw[18],
      raw[19], raw[20], raw[21], raw[22],
      raw[23], Le16(raw[24], raw[25]), Le16(raw[26], raw[27]),
      DecodeRegions(raw))
  }

  lemma Le32Split(x: nat)
    requires x < TWO32
    ensures Le32(Le32Bytes(x)[0], Le32Bytes(x)[1], Le32Bytes(x)[2], Le32Bytes(x)[3]) == x
  {
    var b0, q1 := x % 0x100, x / 0x100;
    var b1, q2 := q1 % 0x100, q1 / 0x100;
    var b2, b3 := q2 % 0x100, q2 / 0x100;
    DivModUnique(x, 0x1_0000, q2, b0 + 0x100 * b1);
    DivModUnique(x, 0x100_0000, b3, b0 + 0x100 * b1 + 0x1_0000 * b2);
  }

  lemma Le32Join(b0: Byte, b1: Byte, b2: Byte, b3: Byte)
    ensures Le32Bytes(Le32(b0, b1, b2, b3)) == [b0, b1, b2, b3]
  {
    var x := Le32(b0, b1, b2, b3);
    DivModUnique(x, 0x100, b1 + 0x100 * b2 + 0x1_0000 * b3, b0);
    DivModUnique(x, 0x1_0000, b2 + 0x100 * b3, b0 + 0x100 * b1);
    DivModUnique(x, 0x100_0000, b3, b0 + 0x100 * b1 + 0x1_0000 * b2);
    DivModUnique(b1 + 0x100 * b2 + 0x1_0000 * b3, 0x100, b2 + 0x100 * b3, b1);
    DivModUnique(b2 + 0x100 * b3, 0x100, b3, b2);
  }

  lemma Le16Split(x: nat)
    requires x < 0x1_0000
    ensures Le16(x % 0x100, x / 0x100) == x
  {
  }

  lemma {:induction false} EncodeRegionsAt(rs: seq<nat>, i: nat, k: nat)
    requires forall j :: 0 <= j < |rs| ==> rs[j] < TWO32
    requires i < |rs| && k < 4
    ensures EncodeRegions(rs)[4 * i + k] == Le32Bytes(rs[i])[k]
  {
    if i > 0 {
      EncodeRegionsAt(rs[1..], i - 1, k);
    }
  }

  lemma HeaderRoundTrip(id: Ident, raw: seq<Byte>)
    requires WellFormed(id) && |raw| > NUM_REGIONS_AT
    requires raw[..NUM_REGIONS_AT] == EncodeHeader(id)
    ensures raw[0..3] == id.qry
    ensures Le16(raw[3], raw[4]) == id.pId && Le16(raw[5], raw[6]) == id.pAdr
    ensures Le16(raw[7], raw[8]) == id.aId && Le16(raw[9], raw[10]) == id.aAdr
    ensures Le16(raw[24], raw[25]) == id.interfaceDesc
    ensures Le16(raw[26], raw[27]) == id.maxBufWriteSize
    ensures raw[11] == id.vccMin && raw[12] == id.vccMax && raw[13] == id.vppMin
    ensures raw[14] == id.vppMax && raw[15] == id.wordWriteTyp && raw[16] == id.bufWriteTyp
    ensures raw[17] == id.blockEraseTyp && raw[18] == id.chipEraseTyp
    ensures raw[19] == id.wordWriteMax && raw[20] == id.bufWriteMax
    ensures raw[21] == id.blockEraseMax && raw[22] == id.chipEraseMax && raw[23] == id.devSize
  {
    var h := EncodeHeader(id);
    assert raw[0..3] == h[0..3];
    assert raw[3] == h[3] && raw[4] == h[4] && raw[5] == h[5] && raw[6] == h[6];
    assert raw[7] == h[7] && raw[8] == h[8] && raw[9] == h[9] && raw[10] == h[10];
    assert raw[11] == h[11] && raw[12] == h[12] && raw[13] == h[13] && raw[14] == h[14];
    assert raw[15] == h[15] && raw[16] == h[16] && raw[17] == h[17] && raw[18] == h[18];
    assert raw[19] == h[19] && raw[20] == h[20] && raw[21] == h[21] && raw[22] == h[22];
    assert raw[23] == h[23] && raw[24] == h[24] && raw[25] == h[25];
    assert raw[26] == h[26] && raw[27] == h[27];
    Le16Split(id.pId);
    Le16Split(id.pAdr);
    Le16Split(id.aId);
    Le16Split(id.aAdr);
    Le16Split(id.interfaceDesc);
    Le16Split(id.maxBufWriteSize);
  }

  /** Decoding the wire image gives the block back. */
  lemma DecodeEncode(id: Ident)
    requires WellFormed(id)
    ensures Complete(Encode(id)) && Decode(Encode(id)) == id
  {
    var raw := Encode(id);
    assert raw[..NUM_REGIONS_AT] == EncodeHeader(id);
    HeaderRoundTrip(id, raw);
    var rs := DecodeRegions(raw);
    forall i | 0 <= i < |id.regions|
      ensures rs[i] == id.regions[i]
    {
      forall k | 0 <= k < 4
        ensures raw[REGIONS_AT + 4 * i + k] == Le32Bytes(id.regions[i])[k]
      {
        EncodeRegionsAt(id.regions, i, k);
      }
      Le32Split(id.regions[i]);
    }
  }

  lemma Le16Join(b0: Byte, b1: Byte)
    ensures Le16(b0, b1) % 0x100 == b0 && Le16(b0, b1) / 0x100 == b1
  {
    DivModUnique(Le16(b0, b1), 0x100, b1, b0);
  }

  lemma HeaderOfDecode(raw: seq<Byte>)
    requires Complete(raw)
    ensures EncodeHeader(Decode(raw)) == raw[..NUM_REGIONS_AT]
  {
    Le16Join(raw[3], raw[4]);
    Le16Join(raw[5], raw[6]);
    Le16Join(raw[7], raw[8]);
    Le16Join(raw[9], raw[10]);
    Le16Join(raw[24], raw[25]);
    Le16Join(raw[26], raw[27]);
  }

  lemma RegionsOfDecode(raw: seq<Byte>)
    requires Complete(raw)
    ensures EncodeRegions(DecodeRegions(raw))
         == raw[REGIONS_AT..REGIONS_AT + 4 * NumRegions(raw)]
  {
    var rs := DecodeRegions(raw);
    var e := EncodeRegions(rs);
    forall j | 0 <= j < |e|
      ensures e[j] == raw[REGIONS_AT + j]
    {
      var i := j / 4;
      var k := j % 4;
      EncodeRegionsAt(rs, i, k);
      var b := REGIONS_AT + 4 * i;
      Le32Join(raw[b], raw[b + 1], raw[b + 2], raw[b + 3]);
    }
  }

  /** The block a probe decodes is exactly the wire bytes it came from. */
  lemma EncodeDecode(raw: seq<Byte>)
    requires Complete(raw)
    ensures Encode(Decode(raw)) == raw[..REGIONS_AT + 4 * NumRegions(raw)]
  {
    HeaderOfDecode(raw);
    RegionsOfDecode(raw);
    var n := REGIONS_AT + 4 * NumRegions(raw);
    assert raw[..n] == raw[..NUM_REGIONS_AT] + [raw[NUM_REGIONS_AT]] + raw[REGIONS_AT..n];
  }

  /** The low 16 bits of an erase-region word are its first two wire bytes. */
  lemma CountFromWire(b0: Byte, b1: Byte, b2: Byte, b3: Byte)
    ensures Le32(b0, b1, b2, b3) % 0x1_0000 == Le16(b0, b1)
  {
  }

  // ---------------------------------------------------------------- probe

  datatype ProbeError = NotCfi | NoEraseRegions | TooManyRegions | TooManySectors

  /** The byte the chip presents at query offset `off` for bus width w. */
  function Query(q: nat -> Byte, base: nat, w: nat, off: nat): Byte
  {
    q(base + off * w)
  }

  predicate HasQry(q: nat -> Byte, base: nat, w: nat)
  {
    Query(q, base, w, 0x10) == 0x51 && Query(q, base, w, 0x11) == 0x52
    && Query(q, base, w, 0x12) == 0x59
  }

  /** Sum over the first n region descriptors, read straight from the query
      table, of (low 16 bits + 1). */
  function WireSectorTotal(q: nat -> Byte, base: nat, w: nat, n: nat): nat
  {
    if n == 0 then 0
    else
      var lo := Le16(Query(q, base, w, 0x10 + REGIONS_AT + 4 * (n - 1)),
                     Query(q, base, w, 0x10 + REGIONS_AT + 4 * (n - 1) + 1));
      WireSectorTotal(q, base, w, n - 1) + lo + 1
  }

  /** The acceptance condition of the probe, stated on the chip's query table. */
  predicate ProbeAccepts(q: nat -> Byte, base: nat, w: nat, maxSect: nat)
  {
    && HasQry(q, base, w)
    && 1 <= Query(q, base, w, 0x2C) <= MAX_ERASE_REGIONS
    && WireSectorTotal(q, base, w, Query(q, base, w, 0x2C)) <= maxSect
  }

  /** The bytes read from query offsets 10h, 11h, … */
  function ReadIdent(q: nat -> Byte, base: nat, w: nat, len: nat): (raw: seq<Byte>)
    ensures |raw| == len
    ensures forall i :: 0 <= i < len ==> raw[i] == Query(q, base, w, 0x10 + i)
  {
    seq(len, i requires 0 <= i < len => Query(q, base, w, 0x10 + i))
  }

  /** Bytes the corrected read loop copies: header plus four per region. */
  function IdentReadLength(n: nat): nat
  {
    REGIONS_AT + 4 * n
  }

  /** Bytes the loop at flash.c:314 copies into the structure as written. */
  function AsWrittenReadLength(n: nat): nat
  {
    IDENT_SIZE + 4 * n
  }

  /** The loop bound at flash.c:314 counts the four region words twice: for
      every accepted region count it copies 4n bytes beyond the end of the
      45-byte structure. The corrected bound stays inside it. */
  lemma ProbeReadOverruns(n: nat)
    requires 1 <= n <= MAX_ERASE_REGIONS
    ensures AsWrittenReadLength(n) > IDENT_SIZE
    ensures AsWrittenReadLength(n) - IDENT_SIZE == 4 * n
    ensures IdentReadLength(n) <= IDENT_SIZE
  {
  }

  /** Decoding only looks at the first 29 + 4n bytes, so the extra bytes the
      as-written loop copies change nothing the driver uses. */
  lemma OverReadDecodesSame(q: nat -> Byte, base: nat, w: nat)
    requires 1 <= Query(q, base, w, 0x2C) <= MAX_ERASE_REGIONS
    ensures Complete(ReadIdent(q, base, w, IdentReadLength(Query(q, base, w, 0x2C))))
    ensures Complete(ReadIdent(q, base, w, AsWrittenReadLength(Query(q, base, w, 0x2C))))
    ensures Decode(ReadIdent(q, base, w, IdentReadLength(Query(q, base, w, 0x2C))))
         == Decode(ReadIdent(q, base, w, AsWrittenReadLength(Query(q, base, w, 0x2C))))
  {
  }

  /** The three commands every probe issues, whatever its outcome: reset,
      query entry at 55h, and the final reset back to read-array mode. */
  function ProbeWrites(base: nat, w: nat): seq<BusWrite>
  {
    [CmdWrite(RESET, 0, base, w), CmdWrite(QUERY, 0x55, base, w), CmdWrite(RESET, 0, base, w)]
  }

  lemma SectorTotalFromWire(q: nat -> Byte, base: nat, w: nat, raw: seq<Byte>, n: nat)
    requires Complete(raw) && n <= NumRegions(raw)
    requires forall i :: 0 <= i < |raw| ==> raw[i] == Query(q, base, w, 0x10 + i)
    ensures SectorTotal(DecodeRegions(raw)[..n]) == WireSectorTotal(q, base, w, n)
  {
    SectorTotalOfDecode(raw, n);
    RawIsWire(q, base, w, raw, n);
  }

  /** The sector total over the first n region words of a wire block, read
      from their low two bytes. */
  function RawSectorTotal(raw: seq<Byte>, n: nat): nat
    requires REGIONS_AT + 4 * n <= |raw|
  {
    if n == 0 then 0
    else
      var j := REGIONS_AT + 4 * (n - 1);
      RawSectorTotal(raw, n - 1) + Le16(raw[j], raw[j + 1]) + 1
  }

  lemma {:induction false} SectorTotalOfDecode(raw: seq<Byte>, n: nat)
    requires Complete(raw) && n <= NumRegions(raw)
    ensures SectorTotal(DecodeRegions(raw)[..n]) == RawSectorTotal(raw, n)
  {
    var rs := DecodeRegions(raw);
    if n > 0 {
      SectorTotalOfDecode(raw, n - 1);
      assert rs[..n] == rs[..n - 1] + [rs[n - 1]];
      SectorTotalSnoc(rs[..n - 1], rs[n - 1]);
      var j := REGIONS_AT + 4 * (n - 1);
      assert rs[n - 1] == Le32(raw[j], raw[j + 1], raw[j + 2], raw[j + 3]);
      CountFromWire(raw[j], raw[j + 1], raw[j + 2], raw[j + 3]);
    } else {
      assert rs[..0] == [];
    }
  }

  lemma {:induction false} RawIsWire(q: nat -> Byte, base: nat, w: nat, raw: seq<Byte>, n: nat)
    requires REGIONS_AT + 4 * n <= |raw|
    requires forall i :: 0 <= i < |raw| ==> raw[i] == Query(q, base, w, 0x10 + i)
    ensures RawSectorTotal(raw, n) == WireSectorTotal(q, base, w, n)
  {
    if n > 0 {
      RawIsWire(q, base, w, raw, n - 1);
      var j := REGIONS_AT + 4 * (n - 1);
      assert raw[j] == Query(q, base, w, 0x10 + j);
      assert raw[j + 1] == Query(q, base, w, 0x10 + j + 1);
    }
  }

  lemma {:induction false} SectorTotalSnoc(rs: seq<nat>, r: nat)
    ensures SectorTotal(rs + [r]) == SectorTotal(rs) + RegionCount(r)
  {
    if rs != [] {
      assert (rs + [r])[1..] == rs[1..] + [r];
      SectorTotalSnoc(rs[1..], r);
    }
  }

  /** `cfi_probe_chip`: the probe for bus width w. On every path it ends with
      the reset command at offset 0; it succeeds exactly when the query table
      shows "QRY", a region count in 1..4 and at most maxSect sectors, and
      then the identity it returns is the one the chip presents from 10h. */
  function ProbeChip(p: Port, base: nat, w: nat, maxSect: nat): (r: (Port, Result<Ident, ProbeError>))
    ensures r.0 == p.(trace := p.trace + ProbeWrites(base, w))
    ensures r.1.Ok? <==> ProbeAccepts(p.chip.query, base, w, maxSect)
    ensures r.1 == Err(NotCfi) <==> !HasQry(p.chip.query, base, w)
    ensures r.1 == Err(NoEraseRegions) <==>
      HasQry(p.chip.query, base, w) && Query(p.chip.query, base, w, 0x2C) == 0
    ensures r.1 == Err(TooManyRegions) <==>
      HasQry(p.chip.query, base, w) && Query(p.chip.query, base, w, 0x2C) > MAX_ERASE_REGIONS
    ensures r.1.Ok? ==> WellFormed(r.1.value)
    ensures r.1.Ok? ==>
      && |r.1.value.regions| == Query(p.chip.query, base, w, 0x2C)
      && Encode(r.1.value) == ReadIdent(p.chip.query, base, w, IdentReadLength(|r.1.value.regions|))
  {
    var q := p.chip.query;
    var p1 := Cmd(Cmd(p, RESET, 0, base, w), QUERY, 0x55, base, w);
    var done := Cmd(p1, RESET, 0, base, w);
    if !HasQry(q, base, w) then (done, Err(NotCfi))
    else
      var n := Query(q, base, w, 0x2C);
      if n == 0 then (done, Err(NoEraseRegions))
      else if n > MAX_ERASE_REGIONS then (done, Err(TooManyRegions))
      else
        var raw := ReadIdent(q, base, w, IdentReadLength(n));
        assert NumRegions(raw) == n;
        var id := Decode(raw);
        EncodeDecode(raw);
        SectorTotalFromWire(q, base, w, raw, n);
        assert id.regions[..n] == id.regions;
        if SectorTotal(id.regions) > maxSect then (done, Err(TooManySectors))
        else (done, Ok(id))
  }
}
