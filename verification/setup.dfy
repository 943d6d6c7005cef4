/** `cfi_amdstd_setup` (flash.c:456-640): reads the chip's ids, resolves the
    boot-block location and the physical order of the erase regions, converts
    the CFI timeouts into timer budgets, lays out the sector table and binds
    one write routine. */
module Setup {
  import opened CInt
  import opened Bus
  import opened Cfi

  /** Primary/alternate command-set id of the AMD/Fujitsu standard set. */
  const P_ID_AMD_STD: nat := 2

  /** Manufacturer-id continuation byte of "mirror-bit" parts. */
  const ID_CONTINUATION: Byte := 0x7E

  /** Encoded CFI version "1.1" (ASCII '1', '1'). */
  const VERSION_1_1: nat := 0x3131

  const TOP_BOOT: Byte := 3
  const BOTTOM_BOOT: Byte := 2

  datatype Writer = WordWrite | BypassWrite | BufferWrite

  /** The parts the driver names (`cfi->flash_name`). */
  datatype PartName =
    | FujitsuMbm29pl32tm | StmM29w320dt | StmM29w320db | StmM29w324dt | StmM29w324db | MxicMx29lv320t

  function PartText(n: PartName): string
  {
    match n
    case FujitsuMbm29pl32tm => "FUJITSU MBM29PL32TM"
    case StmM29w320dt => "STMICRO M29W320DT"
    case StmM29w320db => "STMICRO M29W320DB"
    case StmM29w324dt => "STMICRO M29W324DT"
    case StmM29w324db => "STMICRO M29W324DB"
    case MxicMx29lv320t => "MXIC MX29LV320T"
  }

  /** The board-header constants the driver is compiled with. The vendor and
      device ids are the low bytes (`… & FLASH_DATA_MASK`) the switch compares. */
  datatype Board = Board(
    flashBase: nat, maxSect: nat,
    fujManufact: Byte, stmManufact: Byte, mxManufact: Byte,
    amdIdMirror: Byte, amdIdLv320t2: Byte, amdIdLv320t3: Byte,
    stmId320dt: Byte, stmId320db: Byte, stmId324dt: Byte, stmId324db: Byte,
    mxIdLv320t: Byte,
    flashManFuj: nat, flashManStm: nat, flashManMx: nat,
    flashAmLv320t: nat, flashStmW320dt: nat, flashStmW320db: nat,
    flashStmW324dt: nat, flashStmW324db: nat, flashMxLv320t: nat,
    flashUnknown: nat, flashAmdComp: nat, flashTypeMask: nat)

  /** The resolved driver state (`struct cfi_private`). */
  datatype Device = Device(
    base: nat, width: nat, unlock1: nat, unlock2: nat,
    ident: Ident, mfr: Byte, id: seq<Byte>, name: Option<PartName>,
    wrdWrTime: int, bufWrTime: int, eraseTime: int,
    flashId: nat, write: Option<Writer>)

  /** The device together with the geometry recorded in `flash_info`. */
  datatype Flash = Flash(dev: Device, size: nat, starts: seq<nat>)

  // ------------------------------------------------------ boot location

  /** The boot-block location: below version 1.1 the table's field is not
      trusted and a set bit 7 in device id 0 means top boot. */
  function BootLocation(major: Byte, minor: Byte, id0: Byte, field: Byte): (r: Byte)
    ensures major * 0x100 + minor < VERSION_1_1 ==> (r == TOP_BOOT <==> Bit7(id0))
    ensures major * 0x100 + minor < VERSION_1_1 ==> (r == BOTTOM_BOOT <==> !Bit7(id0))
    ensures major * 0x100 + minor >= VERSION_1_1 ==> r == field
  {
    if major * 0x100 + minor < VERSION_1_1 then
      (if Bit7(id0) then TOP_BOOT else BOTTOM_BOOT)
    else field
  }

  /** The sequence read back to front. */
  function Reverse(s: seq<nat>): (r: seq<nat>)
    ensures |r| == |s|
    ensures forall i :: 0 <= i < |s| ==> r[i] == s[|s| - 1 - i]
  {
    if s == [] then [] else Reverse(s[1..]) + [s[0]]
  }

  /** The in-place swap loop of flash.c:502-509 computes the reversal. */
  method SwapRegions(a: seq<nat>) returns (r: seq<nat>)
    ensures r == Reverse(a)
  {
    var n := |a|;
    r := a;
    var i := 0;
    while i < n / 2
      invariant 0 <= i <= n / 2
      invariant |r| == n
      invariant forall k :: 0 <= k < i ==> r[k] == a[n - 1 - k] && r[n - 1 - k] == a[k]
      invariant forall k :: i <= k < n - i ==> r[k] == a[k]
    {
      var j := n - 1 - i;
      var swap := r[i];
      r := r[i := r[j]];
      r := r[j := swap];
      i := i + 1;
    }
  }

  /** Erase regions in physical order: a top-boot part with more than one
      region lists them back to front, any other part as they are. */
  function OrderRegions(regions: seq<nat>, bootloc: Byte): (r: seq<nat>)
    ensures |r| == |regions|
    ensures bootloc == TOP_BOOT && |regions| > 1 ==>
      forall i :: 0 <= i < |regions| ==> r[i] == regions[|regions| - 1 - i]
    ensures !(bootloc == TOP_BOOT && |regions| > 1) ==> r == regions
  {
    if bootloc == TOP_BOOT && |regions| > 1 then Reverse(regions) else regions
  }

  lemma {:induction false} SectorTotalAppend(s: seq<nat>, t: seq<nat>)
    ensures SectorTotal(s + t) == SectorTotal(s) + SectorTotal(t)
  {
    if s != [] {
      assert (s + t)[1..] == s[1..] + t;
      SectorTotalAppend(s[1..], t);
    } else {
      assert s + t == t;
    }
  }

  /** Reordering the regions keeps the number of sectors. */
  lemma {:induction false} SectorTotalReverse(s: seq<nat>)
    ensures SectorTotal(Reverse(s)) == SectorTotal(s)
  {
    if s != [] {
      SectorTotalReverse(s[1..]);
      SectorTotalAppend(Reverse(s[1..]), [s[0]]);
      assert Reverse(s) == Reverse(s[1..]) + [s[0]];
      assert [s[0]][1..] == [];
    }
  }

  // ---------------------------------------------------------- budgets

  /** `(1 << typ) * (1 << max)` as the `int` product the C computes. */
  function RawTime(typ: Byte, max: Byte): int
  {
    Signed32(Shl1(typ) * Shl1(max))
  }

  /** Word- and buffer-write budget in timer ticks (flash.c:531-544):
      microseconds to milliseconds plus one, and 1 raised to 2. */
  function Budget(typ: Byte, max: Byte): int
  {
    var ms := CDiv(RawTime(typ, max), 1000) + 1;
    if ms == 1 then 2 else ms
  }

  /** The erase budget per sector: the raw product, neither converted nor
      clamped (flash.c:545-546). */
  function EraseTime(typ: Byte, max: Byte): int
  {
    RawTime(typ, max)
  }

  lemma Pow2Thirty()
    ensures Pow2(30) == 0x4000_0000 && Pow2(31) == 0x8000_0000
  {
    assert Pow2(5) == 32;
    Pow2Add(5, 5);
    Pow2Add(10, 10);
    Pow2Add(20, 10);
    Pow2Add(30, 1);
  }

  lemma Pow2Small(k: nat)
    requires k <= 30
    ensures Pow2(k) <= 0x4000_0000
  {
    Pow2Monotone(k, 30);
    Pow2Thirty();
  }

  lemma ShlSmall(s: nat)
    requires s <= 30
    ensures Shl1(s) == Pow2(s)
  {
    Pow2Small(s);
    DivModUnique(s, 64, 0, s);
    DivModUnique(Pow2(s), TWO32, 0, Pow2(s));
  }

  /** Without overflow the raw product is 2^(typ + max). */
  lemma RawTimeExact(typ: Byte, max: Byte)
    requires typ + max <= 30
    ensures RawTime(typ, max) == Pow2(typ + max)
  {
    ShlSmall(typ);
    ShlSmall(max);
    Pow2Add(typ, max);
    Pow2Small(typ + max);
    var x := Pow2(typ + max);
    assert Shl1(typ) * Shl1(max) == x;
    DivModUnique(x, TWO32, 0, x);
  }

  /** For exponents whose product fits in an `int`, every write budget is at
      least 2 ticks; below 1000 us it is exactly 2, from 1000 us on it is the
      whole milliseconds plus one. The erase time stays the raw product. */
  lemma BudgetBounds(typ: Byte, max: Byte)
    requires typ + max <= 30
    ensures Budget(typ, max) >= 2
    ensures Pow2(typ + max) < 1000 ==> Budget(typ, max) == 2
    ensures Pow2(typ + max) >= 1000 ==> Budget(typ, max) == Pow2(typ + max) / 1000 + 1
    ensures EraseTime(typ, max) == Pow2(typ + max)
  {
    RawTimeExact(typ, max);
  }

  /** Exponents summing to 31 overflow the `int` product to INT_MIN, and the
      budget comes out negative, which the poller then reads as a huge
      unsigned timeout. */
  lemma BudgetOverflow(typ: Byte, max: Byte)
    requires typ <= 30 && max <= 30 && typ + max == 31
    ensures RawTime(typ, max) == -0x8000_0000
    ensures Budget(typ, max) < 0
  {
    ShlSmall(typ);
    ShlSmall(max);
    Pow2Add(typ, max);
    Pow2Thirty();
    DivModUnique(0x8000_0000, TWO32, 0, 0x8000_0000);
  }

  // ------------------------------------------------------ sector table

  /** count copies of x. */
  function Repeat(count: nat, x: nat): (r: seq<nat>)
    ensures |r| == count && forall j :: 0 <= j < count ==> r[j] == x
  {
    seq(count, _ => x)
  }

  /** Sector sizes in table order: each region contributes its count of
      sectors of its size. */
  function SectorSizes(regions: seq<nat>): (r: seq<nat>)
    ensures |r| == SectorTotal(regions)
  {
    if regions == [] then []
    else Repeat(RegionCount(regions[0]), RegionSize(regions[0])) + SectorSizes(regions[1..])
  }

  /** Sum of a sequence of naturals. */
  function Sum(s: seq<nat>): nat
  {
    if s == [] then 0 else Sum(s[..|s| - 1]) + s[|s| - 1]
  }

  lemma WrapAdd(a: int, s: int)
    ensures Wrap32(Wrap32(a) + s) == Wrap32(a + s)
  {
    DivModUnique(a + s, TWO32, a / TWO32 + (Wrap32(a) + s) / TWO32, (Wrap32(a) + s) % TWO32);
  }

  lemma RunStep(off: nat, size: nat, k: nat)
    ensures Wrap32(off + (k + 1) * size) == Wrap32(Wrap32(off + k * size) + size)
  {
    WrapAdd(off + k * size, size);
    assert off + (k + 1) * size == off + k * size + size;
  }

  /** The starts of one region's sectors, from the 32-bit running offset. */
  function Run(off: nat, size: nat, count: nat): (r: seq<nat>)
    ensures |r| == count
    ensures forall j :: 0 <= j < count ==> r[j] == Wrap32(off + j * size)
  {
    seq(count, j requires 0 <= j < count => Wrap32(off + j * size))
  }

  /** Each start is its predecessor plus the predecessor's size, mod 2^32. */
  predicate Steps(r: seq<nat>, sizes: seq<nat>)
    requires |r| == |sizes|
  {
    forall k :: 0 <= k < |r| - 1 ==> r[k + 1] == Wrap32(r[k] + sizes[k])
  }

  lemma JoinSteps(off: nat, size: nat, count: nat, rest: seq<nat>, restSizes: seq<nat>)
    requires |rest| == |restSizes| && Steps(rest, restSizes)
    requires |rest| > 0 ==> rest[0] == Wrap32(off + count * size)
    ensures Steps(Run(off, size, count) + rest, Repeat(count, size) + restSizes)
  {
    var r, s := Run(off, size, count) + rest, Repeat(count, size) + restSizes;
    forall k | 0 <= k < |r| - 1
      ensures r[k + 1] == Wrap32(r[k] + s[k])
    {
      if k < count {
        JoinInside(off, size, count, rest, k);
      } else {
        JoinRest(Run(off, size, count), rest, Repeat(count, size), restSizes, k);
      }
    }
  }

  /** A step inside the run, or from its last sector to the next region. */
  lemma JoinInside(off: nat, size: nat, count: nat, rest: seq<nat>, k: nat)
    requires k < count && k + 1 < count + |rest|
    requires |rest| > 0 ==> rest[0] == Wrap32(off + count * size)
    ensures (Run(off, size, count) + rest)[k + 1]
      == Wrap32((Run(off, size, count) + rest)[k] + Repeat(count, size)[k])
  {
    var r := Run(off, size, count) + rest;
    RunStep(off, size, k);
    assert r[k] == Wrap32(off + k * size);
    if k + 1 == count {
      assert r[k + 1] == rest[0];
    } else {
      assert r[k + 1] == Wrap32(off + (k + 1) * size);
    }
  }

  /** A step inside the rest of the table. */
  lemma JoinRest(run: seq<nat>, rest: seq<nat>, sizes: seq<nat>, restSizes: seq<nat>, k: nat)
    requires |run| == |sizes| <= k && k + 1 < |run| + |rest| && |rest| == |restSizes|
    requires Steps(rest, restSizes)
    ensures (run + rest)[k + 1] == Wrap32((run + rest)[k] + (sizes + restSizes)[k])
  {
    var i := k - |run|;
    assert (run + rest)[k + 1] == rest[i + 1] && (run + rest)[k] == rest[i];
    assert (sizes + restSizes)[k] == restSizes[i];
  }

  /** The start addresses of flash.c:550-562, with the 32-bit running
      offset: as many entries as sectors, the first at the offset, and each
      next one its predecessor plus the predecessor's sector size. */
  function SectorTable(regions: seq<nat>, off: nat): (r: seq<nat>)
    ensures |r| == SectorTotal(regions)
    ensures |r| > 0 ==> r[0] == Wrap32(off)
    ensures Steps(r, SectorSizes(regions))
    decreases |regions|
  {
    if regions == [] then []
    else
      var size, count := RegionSize(regions[0]), RegionCount(regions[0]);
      var rest := SectorTable(regions[1..], off + count * size);
      JoinSteps(off, size, count, rest, SectorSizes(regions[1..]));
      assert SectorSizes(regions) == Repeat(count, size) + SectorSizes(regions[1..]);
      Run(off, size, count) + rest
  }

  lemma SumSnoc(s: seq<nat>, x: nat)
    ensures Sum(s + [x]) == Sum(s) + x
  {
    assert (s + [x])[..|s|] == s;
  }

  /** The sum of the first k elements is the sum of the first k - 1 plus
      element k - 1. */
  lemma SumTake(s: seq<nat>, k: nat)
    requires 1 <= k <= |s|
    ensures Sum(s[..k]) == Sum(s[..k - 1]) + s[k - 1]
  {
    assert s[..k][..k - 1] == s[..k - 1];
  }

  lemma {:induction false} SumPrefix(s: seq<nat>, k: nat)
    requires k <= |s|
    ensures Sum(s[..k]) <= Sum(s)
    ensures forall i :: k <= i < |s| && s[i] > 0 ==> Sum(s[..k]) < Sum(s)
    decreases |s| - k
  {
    if k < |s| {
      SumPrefix(s, k + 1);
      SumTake(s, k + 1);
    } else {
      assert s[..k] == s;
    }
  }

  /** A stepped table that stays below 2^32 never wraps: entry k is the
      offset plus the sizes before it. */
  lemma {:induction false} StepsNoWrap(r: seq<nat>, s: seq<nat>, off: nat, k: nat)
    requires |r| == |s| && Steps(r, s) && |r| > 0 && r[0] == Wrap32(off)
    requires forall i :: 0 <= i < |s| ==> s[i] > 0
    requires off + Sum(s) <= TWO32
    requires k < |r|
    ensures r[k] == off + Sum(s[..k])
  {
    SumPrefix(s, k);
    assert s[k] > 0;
    Wrap32Id(off + Sum(s[..k]));
    if k == 0 {
      assert s[..0] == [];
    } else {
      StepsNoWrap(r, s, off, k - 1);
      SumTake(s, k);
      assert r[k] == Wrap32(r[k - 1] + s[k - 1]);
    }
  }

  lemma StepsAscend(r: seq<nat>, s: seq<nat>, off: nat)
    requires |r| == |s| && Steps(r, s) && (|r| > 0 ==> r[0] == Wrap32(off))
    requires forall i :: 0 <= i < |s| ==> s[i] > 0
    requires off + Sum(s) <= TWO32
    ensures forall k :: 0 <= k < |r| ==> r[k] == off + Sum(s[..k])
    ensures forall k :: 0 <= k < |r| - 1 ==> r[k] < r[k + 1]
  {
    forall k | 0 <= k < |r|
      ensures r[k] == off + Sum(s[..k])
    {
      StepsNoWrap(r, s, off, k);
    }
    forall k | 0 <= k < |r| - 1
      ensures r[k] < r[k + 1]
    {
      StepAscends(r, s, off, k);
    }
  }

  lemma StepAscends(r: seq<nat>, s: seq<nat>, off: nat, k: nat)
    requires |r| == |s| && Steps(r, s) && |r| > 0 && r[0] == Wrap32(off)
    requires forall i :: 0 <= i < |s| ==> s[i] > 0
    requires off + Sum(s) <= TWO32
    requires k + 1 < |r|
    ensures r[k] < r[k + 1]
  {
    StepsNoWrap(r, s, off, k);
    StepsNoWrap(r, s, off, k + 1);
    SumTake(s, k + 1);
    assert s[k] > 0;
  }

  /** When the table does not run past the top of the 32-bit space and every
      sector has a size, each start is the offset plus the sizes before it,
      and the starts strictly ascend. */
  lemma StartsAscend(regions: seq<nat>, off: nat)
    requires off + Sum(SectorSizes(regions)) <= TWO32
    requires forall k :: 0 <= k < |SectorSizes(regions)| ==> SectorSizes(regions)[k] > 0
    ensures forall k :: 0 <= k < |SectorTable(regions, off)| ==>
      SectorTable(regions, off)[k] == off + Sum(SectorSizes(regions)[..k])
    ensures forall k :: 0 <= k < |SectorTable(regions, off)| - 1 ==>
      SectorTable(regions, off)[k] < SectorTable(regions, off)[k + 1]
  {
    StepsAscend(SectorTable(regions, off), SectorSizes(regions), off);
  }

  // ------------------------------------------------- writer selection

  /** One row of the vendor/device table. `ids` is matched against the
      leading device-id bytes. */
  datatype Entry = Entry(mfr: Byte, ids: seq<Byte>, manId: nat, devId: nat,
                         writer: Writer, name: PartName)

  datatype Selection = Selection(flashId: nat, write: Option<Writer>, name: Option<PartName>)

  /** The known parts, in the order the switch tests them. */
  function VendorTable(b: Board): seq<Entry>
  {
    [Entry(b.fujManufact, [b.amdIdMirror, b.amdIdLv320t2, b.amdIdLv320t3],
           b.flashManFuj, b.flashAmLv320t, BufferWrite, FujitsuMbm29pl32tm),
     Entry(b.stmManufact, [b.stmId320dt], b.flashManStm, b.flashStmW320dt, BypassWrite, StmM29w320dt),
     Entry(b.stmManufact, [b.stmId320db], b.flashManStm, b.flashStmW320db, BypassWrite, StmM29w320db),
     Entry(b.stmManufact, [b.stmId324dt], b.flashManStm, b.flashStmW324dt, BypassWrite, StmM29w324dt),
     Entry(b.stmManufact, [b.stmId324db], b.flashManStm, b.flashStmW324db, BypassWrite, StmM29w324db),
     Entry(b.mxManufact, [b.mxIdLv320t], b.flashManMx, b.flashMxLv320t, WordWrite, MxicMx29lv320t)]
  }

  predicate EntryMatches(e: Entry, mfr: Byte, id: seq<Byte>)
  {
    e.mfr == mfr && |e.ids| <= |id| && id[..|e.ids|] == e.ids
  }

  function Lookup(t: seq<Entry>, mfr: Byte, id: seq<Byte>): (r: Option<Entry>)
    ensures r.Some? ==> r.value in t && EntryMatches(r.value, mfr, id)
    ensures r.None? ==> forall e :: e in t ==> !EntryMatches(e, mfr, id)
  {
    if t == [] then None
    else if EntryMatches(t[0], mfr, id) then Some(t[0])
    else Lookup(t[1..], mfr, id)
  }

  /** The manufacturer's flash-id base for a known manufacturer. */
  function Manufacturer(b: Board, mfr: Byte): Option<nat>
  {
    if mfr == b.fujManufact then Some(b.flashManFuj)
    else if mfr == b.stmManufact then Some(b.flashManStm)
    else if mfr == b.mxManufact then Some(b.flashManMx)
    else None
  }

  /** The switch at flash.c:564-626 as it is written. */
  function SwitchSelect(b: Board, mfr: Byte, id: seq<Byte>): Selection
    requires |id| == 3
  {
    if mfr == b.fujManufact then
      if id[0] == b.amdIdMirror && id[1] == b.amdIdLv320t2 && id[2] == b.amdIdLv320t3 then
        Selection(b.flashManFuj + b.flashAmLv320t, Some(BufferWrite), Some(FujitsuMbm29pl32tm))
      else Selection(b.flashManFuj + b.flashUnknown, None, None)
    else if mfr == b.stmManufact then
      if id[0] == b.stmId320dt then
        Selection(b.flashManStm + b.flashStmW320dt, Some(BypassWrite), Some(StmM29w320dt))
      else if id[0] == b.stmId320db then
        Selection(b.flashManStm + b.flashStmW320db, Some(BypassWrite), Some(StmM29w320db))
      else if id[0] == b.stmId324dt then
        Selection(b.flashManStm + b.flashStmW324dt, Some(BypassWrite), Some(StmM29w324dt))
      else if id[0] == b.stmId324db then
        Selection(b.flashManStm + b.flashStmW324db, Some(BypassWrite), Some(StmM29w324db))
      else Selection(b.flashManStm + b.flashUnknown, None, None)
    else if mfr == b.mxManufact then
      if id[0] == b.mxIdLv320t then
        Selection(b.flashManMx + b.flashMxLv320t, Some(WordWrite), Some(MxicMx29lv320t))
      else Selection(b.flashManMx + b.flashUnknown, None, None)
    else Selection(b.flashAmdComp, None, None)
  }

  /** The writer for an unknown but CFI-compatible part: buffered when the
      chip reports a write buffer. */
  function FallbackWriter(maxBufWriteSize: nat): Writer
  {
    if maxBufWriteSize != 0 then BufferWrite else WordWrite
  }

  /** Vendor/device selection with the fallback of flash.c:628-635: when the
      type bits of the flash id say "unknown", the name is cleared and the
      writer follows the buffer size; otherwise the switch's choice stands. */
  function Select(b: Board, mfr: Byte, id: seq<Byte>, maxBufWriteSize: nat): (r: Selection)
    requires |id| == 3
    ensures r.flashId == SwitchSelect(b, mfr, id).flashId
    ensures BitAnd(r.flashId, b.flashTypeMask) == b.flashUnknown ==>
      r.write == Some(FallbackWriter(maxBufWriteSize)) && r.name == None
    ensures BitAnd(r.flashId, b.flashTypeMask) != b.flashUnknown ==>
      r == SwitchSelect(b, mfr, id)
  {
    var s := SwitchSelect(b, mfr, id);
    if BitAnd(s.flashId, b.flashTypeMask) == b.flashUnknown then
      Selection(s.flashId, Some(FallbackWriter(maxBufWriteSize)), None)
    else s
  }

  /** The case labels of a C switch are distinct. */
  predicate DistinctLabels(b: Board)
  {
    && b.fujManufact != b.stmManufact && b.fujManufact != b.mxManufact
    && b.stmManufact != b.mxManufact
    && b.stmId320dt != b.stmId320db && b.stmId320dt != b.stmId324dt && b.stmId320dt != b.stmId324db
    && b.stmId320db != b.stmId324dt && b.stmId320db != b.stmId324db
    && b.stmId324dt != b.stmId324db
  }

  lemma LookupUnique(t: seq<Entry>, mfr: Byte, id: seq<Byte>, k: nat)
    requires k < |t| && EntryMatches(t[k], mfr, id)
    requires forall j :: 0 <= j < |t| && j != k ==> !EntryMatches(t[j], mfr, id)
    ensures Lookup(t, mfr, id) == Some(t[k])
  {
    var r := Lookup(t, mfr, id);
    assert t[k] in t;
    var j :| 0 <= j < |t| && t[j] == r.value;
  }

  lemma LookupAbsent(t: seq<Entry>, mfr: Byte, id: seq<Byte>)
    requires forall j :: 0 <= j < |t| ==> !EntryMatches(t[j], mfr, id)
    ensures Lookup(t, mfr, id) == None
  {
    forall e | e in t
      ensures !EntryMatches(e, mfr, id)
    {
      var j :| 0 <= j < |t| && t[j] == e;
    }
  }

  /** What the switch gives for the row-k entry, or for no entry. */
  function TableSelection(b: Board, mfr: Byte, r: Option<Entry>): Selection
  {
    match r
    case Some(e) => Selection(e.manId + e.devId, Some(e.writer), Some(e.name))
    case None =>
      match Manufacturer(b, mfr)
      case Some(m) => Selection(m + b.flashUnknown, None, None)
      case None => Selection(b.flashAmdComp, None, None)
  }

  lemma SwitchFujitsu(b: Board, mfr: Byte, id: seq<Byte>)
    requires |id| == 3 && DistinctLabels(b) && mfr == b.fujManufact
    ensures SwitchSelect(b, mfr, id) == TableSelection(b, mfr, Lookup(VendorTable(b), mfr, id))
  {
    var t := VendorTable(b);
    assert id[..3] == id;
    if id == [b.amdIdMirror, b.amdIdLv320t2, b.amdIdLv320t3] {
      LookupUnique(t, mfr, id, 0);
    } else {
      LookupAbsent(t, mfr, id);
    }
  }

  lemma SwitchStm(b: Board, mfr: Byte, id: seq<Byte>)
    requires |id| == 3 && DistinctLabels(b) && mfr == b.stmManufact
    ensures SwitchSelect(b, mfr, id) == TableSelection(b, mfr, Lookup(VendorTable(b), mfr, id))
  {
    if id[0] == b.stmId320dt {
      StmKnown(b, mfr, id, 1);
    } else if id[0] == b.stmId320db {
      StmKnown(b, mfr, id, 2);
    } else if id[0] == b.stmId324dt {
      StmKnown(b, mfr, id, 3);
    } else if id[0] == b.stmId324db {
      StmKnown(b, mfr, id, 4);
    } else {
      StmUnknown(b, mfr, id);
    }
  }

  /** An ST part matching no row. */
  lemma StmUnknown(b: Board, mfr: Byte, id: seq<Byte>)
    requires |id| == 3 && DistinctLabels(b) && mfr == b.stmManufact
    requires id[0] != b.stmId320dt && id[0] != b.stmId320db && id[0] != b.stmId324dt && id[0] != b.stmId324db
    ensures Lookup(VendorTable(b), mfr, id) == None
    ensures TableSelection(b, mfr, Lookup(VendorTable(b), mfr, id)) == Selection(b.flashManStm + b.flashUnknown, None, None)
  {
    var t := VendorTable(b);
    forall j | 0 <= j < |t|
      ensures !EntryMatches(t[j], mfr, id)
    {
      StmRow(b, mfr, id, j);
    }
    LookupAbsent(t, mfr, id);
  }

  /** An ST part whose first id byte is that of row k is found at row k. */
  lemma StmKnown(b: Board, mfr: Byte, id: seq<Byte>, k: nat)
    requires |id| == 3 && DistinctLabels(b) && mfr == b.stmManufact && 1 <= k <= 4
    requires id[0] == VendorTable(b)[k].ids[0]
    ensures Lookup(VendorTable(b), mfr, id) == Some(VendorTable(b)[k])
    ensures var e := VendorTable(b)[k];
      TableSelection(b, mfr, Lookup(VendorTable(b), mfr, id)) == Selection(e.manId + e.devId, Some(e.writer), Some(e.name))
  {
    var t := VendorTable(b);
    forall j | 0 <= j < |t| && j != k
      ensures !EntryMatches(t[j], mfr, id)
    {
      StmRow(b, mfr, id, j);
    }
    StmRow(b, mfr, id, k);
    LookupUnique(t, mfr, id, k);
  }

  /** Which rows an ST part matches: rows 1-4, on the first id byte. */
  lemma StmRow(b: Board, mfr: Byte, id: seq<Byte>, j: nat)
    requires |id| == 3 && DistinctLabels(b) && mfr == b.stmManufact && j < 6
    ensures var t := VendorTable(b);
      EntryMatches(t[j], mfr, id) <==> 1 <= j <= 4 && id[0] == t[j].ids[0]
  {
    assert id[..1] == [id[0]];
  }

  lemma SwitchMx(b: Board, mfr: Byte, id: seq<Byte>)
    requires |id| == 3 && DistinctLabels(b) && mfr == b.mxManufact
    ensures SwitchSelect(b, mfr, id) == TableSelection(b, mfr, Lookup(VendorTable(b), mfr, id))
  {
    var t := VendorTable(b);
    assert id[..1] == [id[0]];
    if id[0] == b.mxIdLv320t {
      LookupUnique(t, mfr, id, 5);
    } else {
      LookupAbsent(t, mfr, id);
    }
  }

  /** The switch cascade is the lookup in the vendor table: a matching row
      gives its flash id, writer and name; a known manufacturer without a
      matching device gives "manufacturer + unknown"; any other manufacturer
      is an AMD-compatible part. */
  lemma SwitchIsTableLookup(b: Board, mfr: Byte, id: seq<Byte>)
    requires |id| == 3 && DistinctLabels(b)
    ensures SwitchSelect(b, mfr, id) == TableSelection(b, mfr, Lookup(VendorTable(b), mfr, id))
  {
    if mfr == b.fujManufact {
      SwitchFujitsu(b, mfr, id);
    } else if mfr == b.stmManufact {
      SwitchStm(b, mfr, id);
    } else if mfr == b.mxManufact {
      SwitchMx(b, mfr, id);
    } else {
      LookupAbsent(VendorTable(b), mfr, id);
    }
  }

  // --------------------------------------------------------------- setup

  /** The unlock offsets for the byte-wide command cycles (flash.c:515-529). */
  function Unlock1(w: nat): nat
  {
    if w == X8 then 0x555 else 0xAAA
  }

  function Unlock2(w: nat): nat
  {
    if w == X8 then 0x2AA else 0x555
  }

  /** The autoselect cycles `cfi_cmd` issues at width w land on the unlock
      offsets the byte-wide program and erase cycles use; for a x16 part it
      is the 0x554 bump that turns 0x2AA * 2 into 0x555. */
  lemma AutoselectUsesUnlockOffsets(w: nat)
    requires w == X8 || w == X16
    ensures CmdOffset(0x555, w) == Unlock1(w) && CmdOffset(0x2AA, w) == Unlock2(w)
    ensures CmdOffset(Unlock1(w), X8) == Unlock1(w) && CmdOffset(Unlock2(w), X8) == Unlock2(w)
  {
  }

  /** The commands setup issues: read-array, autoselect, read-array, query
      entry, read-array. */
  function SetupWrites(base: nat, w: nat): seq<BusWrite>
  {
    [CmdWrite(RESET, 0, base, w), CmdWrite(0xAA, 0x555, base, w), CmdWrite(0x55, 0x2AA, base, w),
     CmdWrite(0x90, 0x555, base, w), CmdWrite(RESET, 0, base, w), CmdWrite(QUERY, 0x55, base, w),
     CmdWrite(RESET, 0, base, w)]
  }

  /** Manufacturer id 0 and the three device-id bytes read in autoselect
      mode; bytes 1 and 2 are read only after the 0x7E continuation and are
      otherwise left at the 0 of the initial memset. */
  function DeviceIds(a: nat -> Byte, base: nat, w: nat): (id: seq<Byte>)
    ensures |id| == 3 && id[0] == a(base + w)
    ensures id[0] == ID_CONTINUATION ==> id[1] == a(base + 0xE * w) && id[2] == a(base + 0xF * w)
    ensures id[0] != ID_CONTINUATION ==> id[1] == 0 && id[2] == 0
  {
    var id0 := a(base + 1 * w);
    if id0 == ID_CONTINUATION then [id0, a(base + 0xE * w), a(base + 0xF * w)] else [id0, 0, 0]
  }

  /** The global state a setup call leaves: the port, the identity block
      (whose erase regions it reorders in place, whether or not it then
      succeeds), the size it returns and, for a supported width, the resolved
      device and sector table. */
  datatype SetupResult = SetupResult(port: Port, ident: Ident, size: nat, flash: Option<Flash>)

  /** The boot location read from the chosen extended query table: version
      bytes at +3/+4 and the location field at +0Fh. */
  function BootLoc(c: Chip, base: nat, w: nat, ident: Ident, primary: bool, id0: Byte): Byte
  {
    var addrEt := if primary then ident.pAdr else ident.aAdr;
    BootLocation(c.query(base + (addrEt + 3) * w), c.query(base + (addrEt + 4) * w), id0,
                 c.query(base + (addrEt + 0xF) * w))
  }

  /** `cfi_amdstd_setup(cfi, primary)` for an identity the probe accepted.
      It always issues the seven setup commands and reorders the regions; it
      fails (size 0, no device) only for a width other than x8 and x16;
      otherwise the size is the C value of `1 << DevSize` and the sector table
      is laid out over the reordered regions from the board's flash base. */
  function AmdStdSetup(p: Port, b: Board, w: nat, ident: Ident, primary: bool): (r: SetupResult)
    ensures r.port == p.(trace := p.trace + SetupWrites(b.flashBase, w))
    ensures r.ident == ident.(regions := OrderRegions(ident.regions,
      BootLoc(p.chip, b.flashBase, w, ident, primary, p.chip.autoselect(b.flashBase + w))))
    ensures r.flash.Some? <==> (w == X8 || w == X16)
    ensures r.flash.None? ==> r.size == 0
    ensures r.flash.Some? ==>
      var f := r.flash.value;
      && r.size == f.size == Wrap32(Shl1(ident.devSize))
      && f.dev.ident == r.ident
      && f.dev.base == b.flashBase && f.dev.width == w
      && f.dev.unlock1 == Unlock1(w) && f.dev.unlock2 == Unlock2(w)
      && f.dev.wrdWrTime == Budget(ident.wordWriteTyp, ident.wordWriteMax)
      && f.dev.bufWrTime == Budget(ident.bufWriteTyp, ident.bufWriteMax)
      && f.dev.eraseTime == EraseTime(ident.blockEraseTyp, ident.blockEraseMax)
      && f.dev.mfr == p.chip.autoselect(b.flashBase)
      && f.dev.id == DeviceIds(p.chip.autoselect, b.flashBase, w)
      && f.dev.write == Select(b, f.dev.mfr, f.dev.id, ident.maxBufWriteSize).write
      && f.dev.flashId == SwitchSelect(b, f.dev.mfr, f.dev.id).flashId
      && |f.starts| == SectorTotal(ident.regions)
      && (|f.starts| > 0 ==> f.starts[0] == Wrap32(b.flashBase))
      && f.starts == SectorTable(r.ident.regions, b.flashBase)
  {
    var base := b.flashBase;
    var a := p.chip.autoselect;
    var mfr := a(base + 0 * w);
    var id := DeviceIds(a, base, w);
    var regions := OrderRegions(ident.regions, BootLoc(p.chip, base, w, ident, primary, id[0]));
    var ident' := ident.(regions := regions);
    var p1 := p.(trace := p.trace + SetupWrites(base, w));
    if w != X8 && w != X16 then SetupResult(p1, ident', 0, None)
    else
      var sel := Select(b, mfr, id, ident.maxBufWriteSize);
      var dev := Device(base, w, Unlock1(w), Unlock2(w), ident', mfr, id, sel.name,
                        Budget(ident.wordWriteTyp, ident.wordWriteMax),
                        Budget(ident.bufWriteTyp, ident.bufWriteMax),
                        EraseTime(ident.blockEraseTyp, ident.blockEraseMax),
                        sel.flashId, sel.write);
      var size := Wrap32(Shl1(ident.devSize));
      SectorTotalReverse(ident.regions);
      SetupResult(p1, ident', size, Some(Flash(dev, size, SectorTable(regions, base))))
  }
}
