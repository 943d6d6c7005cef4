/** `flash_init` (flash.c:180-238): probe x8 then x16, set up the AMD
    standard command set from the primary or else the alternate table, and
    accept only a 4 MiB part. */
module Init {
  import opened CInt
  import opened Bus
  import opened Cfi
  import opened Setup

  /** The only flash size the board accepts. */
  const FLASH_SIZE: nat := 4 * 1024 * 1024

  datatype InitResult = InitResult(port: Port, size: nat, flash: Option<Flash>)

  /** The probe's verdict depends on the chip alone, not on earlier writes. */
  lemma ProbeDependsOnChip(p: Port, p': Port, base: nat, w: nat, maxSect: nat)
    requires p.chip == p'.chip
    ensures ProbeChip(p, base, w, maxSect).1 == ProbeChip(p', base, w, maxSect).1
  {
  }

  /** The width the probe settles on: x8 when the chip answers at x8, else
      x16 when it answers there. */
  function ProbedWidth(q: nat -> Byte, base: nat, maxSect: nat): Option<nat>
  {
    if ProbeAccepts(q, base, X8, maxSect) then Some(X8)
    else if ProbeAccepts(q, base, X16, maxSect) then Some(X16)
    else None
  }

  /** The setup step: primary table when its command set is AMD standard;
      the alternate one when that gave nothing and the alternate command set
      is AMD standard. */
  function SetupEither(p: Port, b: Board, w: nat, ident: Ident): (r: SetupResult)
    ensures r.port.chip == p.chip
    ensures ident.pId != P_ID_AMD_STD && ident.aId != P_ID_AMD_STD ==>
      r == SetupResult(p, ident, 0, None)
    ensures (w == X8 || w == X16) ==>
      r.size == (if ident.pId == P_ID_AMD_STD || ident.aId == P_ID_AMD_STD
                 then Wrap32(Shl1(ident.devSize)) else 0)
    ensures r.size != 0 ==> r.flash.Some? && r.flash.value.size == r.size && r.flash.value.dev.width == w
  {
    var s1 := if ident.pId == P_ID_AMD_STD then AmdStdSetup(p, b, w, ident, true)
              else SetupResult(p, ident, 0, None);
    if s1.size != 0 then s1
    else if ident.aId == P_ID_AMD_STD then AmdStdSetup(s1.port, b, w, s1.ident, false)
    else SetupResult(s1.port, s1.ident, 0, None)
  }

  /** `flash_init`: the returned size is 0 or 4 MiB; it is 4 MiB exactly
      when the chip answers CFI at some width, one of its command sets is
      AMD standard and it reports a 4 MiB device; the device is the one
      resolved at the width the probe settled on. */
  function FlashInit(p: Port, b: Board): (r: InitResult)
    ensures r.size == 0 || r.size == FLASH_SIZE
    ensures ProbedWidth(p.chip.query, b.flashBase, b.maxSect).None? ==>
      r == InitResult(p.(trace := p.trace + ProbeWrites(b.flashBase, X8) + ProbeWrites(b.flashBase, X16)), 0, None)
    ensures ProbedWidth(p.chip.query, b.flashBase, b.maxSect).Some? ==>
      var w := ProbedWidth(p.chip.query, b.flashBase, b.maxSect).value;
      var ident := ProbeChip(p, b.flashBase, w, b.maxSect).1.value;
      && (r.size == FLASH_SIZE <==>
           (ident.pId == P_ID_AMD_STD || ident.aId == P_ID_AMD_STD)
           && Wrap32(Shl1(ident.devSize)) == FLASH_SIZE)
      && (r.size != 0 ==> r.flash.Some? && r.flash.value.size == r.size && r.flash.value.dev.width == w)
  {
    var base := b.flashBase;
    var (p8, res8) := ProbeChip(p, base, X8, b.maxSect);
    var (pw, w, res) :=
      if res8.Ok? then (p8, X8, res8)
      else
        var (p16, res16) := ProbeChip(p8, base, X16, b.maxSect);
        (p16, X16, res16);
    ProbeDependsOnChip(p, p8, base, X16, b.maxSect);
    if res.Err? then InitResult(pw, 0, None)
    else
      var s := SetupEither(pw, b, w, res.value);
      if s.size != 0 && s.size == FLASH_SIZE then InitResult(s.port, s.size, s.flash)
      else InitResult(s.port, 0, s.flash)
  }

  lemma {:induction false} Pow2StrictMono(a: nat, b: nat)
    requires a < b
    ensures 2 * Pow2(a) <= Pow2(b)
  {
    Pow2Add(a + 1, b - a - 1);
    assert Pow2(a + 1) == 2 * Pow2(a);
    MulAtLeast(Pow2(b - a - 1), Pow2(a + 1));
  }

  /** Which DevSize bytes give a 4 MiB device: because the shift amount is
      taken modulo 64, every byte congruent to 22 modulo 64 does. */
  lemma FourMiBSizes(d: Byte)
    ensures Wrap32(Shl1(d)) == FLASH_SIZE <==> d % 64 == 22
  {
    var k := d % 64;
    DivModUnique(k, 64, 0, k);
    assert Shl1(d) == Shl1(k);
    Pow2TwentyTwo();
    if k < 22 {
      WrapShlLow(k);
      Pow2Monotone(k, 21);
      Pow2StrictMono(21, 22);
    } else if k <= 30 {
      WrapShlLow(k);
      if k > 22 {
        Pow2Monotone(23, k);
        Pow2StrictMono(22, 23);
      }
    } else if k == 31 {
      WrapShlSign();
    } else {
      WrapShlHigh(k);
    }
  }

  lemma Pow2TwentyTwo()
    ensures Pow2(22) == FLASH_SIZE
  {
    assert Pow2(2) == 4;
    Pow2Add(10, 10);
    Pow2Add(20, 2);
  }

  /** `1 << k` as an unsigned 32-bit value, for a shift already reduced
      modulo 64 and at most 30: 2^k. */
  lemma WrapShlLow(k: nat)
    requires k <= 30
    ensures Wrap32(Shl1(k)) == Pow2(k)
  {
    ShlSmall(k);
    Pow2Small(k);
    Wrap32Id(Pow2(k));
  }

  /** `1 << 31` is INT_MIN, 2^31 as an unsigned value. */
  lemma WrapShlSign()
    ensures Wrap32(Shl1(31)) == 0x8000_0000
  {
    DivModUnique(31, 64, 0, 31);
    Pow2Thirty();
    Wrap32Id(0x8000_0000);
  }

  /** Shifts of 32 to 63 give 0. */
  lemma WrapShlHigh(k: nat)
    requires 32 <= k < 64
    ensures Wrap32(Shl1(k)) == 0
  {
    DivModUnique(k, 64, 0, k);
    Wrap32Id(0);
  }
}
