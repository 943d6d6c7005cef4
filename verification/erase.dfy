/** Sector erase `flash_amdstd_erase` (flash.c:703-770): one erase setup,
    one 30h command per unprotected sector in the range, then a DQ7 poll of
    the last such sector against the erase budget times the sector count. */
module Erase {
  import opened CInt
  import opened Bus
  import opened Poll
  import opened Setup

  const ERASE_SETUP: Byte := 0x80
  const SECTOR_ERASE: Byte := 0x30
  const ERASED: Byte := 0xFF

  /** The protected sectors among lo..hi, counted. */
  function ProtectedCount(protect: seq<bool>, lo: nat, hi: int): (r: nat)
    requires hi < |protect|
    ensures r <= (if hi < lo then 0 else hi - lo + 1)
    ensures r == (if hi < lo then 0 else hi - lo + 1) <==> forall i :: lo <= i <= hi ==> protect[i]
    decreases hi - lo
  {
    if hi < lo then 0
    else ProtectedCount(protect, lo, hi - 1) + (if protect[hi] then 1 else 0)
  }

  /** The highest unprotected sector among lo..hi, if any. */
  function LastUnprotected(protect: seq<bool>, lo: nat, hi: int): (r: Option<nat>)
    requires hi < |protect|
    ensures r.Some? ==> lo <= r.value <= hi && !protect[r.value]
    ensures r.Some? ==> forall i :: r.value < i <= hi ==> protect[i]
    ensures r.None? <==> forall i :: lo <= i <= hi ==> protect[i]
    decreases hi - lo
  {
    if hi < lo then None
    else if !protect[hi] then Some(hi)
    else LastUnprotected(protect, lo, hi - 1)
  }

  /** The 30h writes to the start of every unprotected sector among lo..hi,
      in ascending sector order. */
  function EraseCommands(starts: seq<nat>, protect: seq<bool>, lo: nat, hi: int): seq<BusWrite>
    requires |protect| == |starts| && hi < |starts|
    decreases hi - lo
  {
    if hi < lo then []
    else EraseCommands(starts, protect, lo, hi - 1)
         + (if protect[hi] then [] else [BusWrite(starts[hi], SECTOR_ERASE)])
  }

  /** Every erase command goes to the start of an unprotected sector of the
      range, and there is one per unprotected sector. */
  lemma {:induction false} EraseCommandsSound(starts: seq<nat>, protect: seq<bool>, lo: nat, hi: int)
    requires |protect| == |starts| && hi < |starts|
    ensures |EraseCommands(starts, protect, lo, hi)|
      == (if hi < lo then 0 else hi - lo + 1) - ProtectedCount(protect, lo, hi)
    ensures forall c :: c in EraseCommands(starts, protect, lo, hi) ==>
      c.val == SECTOR_ERASE && exists i :: lo <= i <= hi && !protect[i] && c.addr == starts[i]
    decreases hi - lo
  {
    if hi >= lo {
      EraseCommandsSound(starts, protect, lo, hi - 1);
    }
  }

  /** An unprotected sector of the range receives an erase command at its
      start; when sector starts are distinct, a protected one receives none. */
  lemma {:induction false} EraseTargetsUnprotected(starts: seq<nat>, protect: seq<bool>, lo: nat, hi: int, i: nat)
    requires |protect| == |starts| && hi < |starts| && lo <= i <= hi
    requires forall a, b :: 0 <= a < b < |starts| ==> starts[a] != starts[b]
    ensures BusWrite(starts[i], SECTOR_ERASE) in EraseCommands(starts, protect, lo, hi) <==> !protect[i]
    decreases hi - lo
  {
    if i < hi {
      EraseTargetsUnprotected(starts, protect, lo, hi - 1, i);
      assert starts[hi] != starts[i];
    } else {
      EraseCommandsSound(starts, protect, lo, hi - 1);
    }
  }

  /** The reset and the five-cycle erase setup, at byte width. */
  function EraseSetupWrites(d: Device): seq<BusWrite>
  {
    [CmdWrite(RESET, 0, d.base, X8),
     CmdWrite(0xAA, d.unlock1, d.base, X8), CmdWrite(0x55, d.unlock2, d.base, X8),
     CmdWrite(ERASE_SETUP, d.unlock1, d.base, X8),
     CmdWrite(0xAA, d.unlock1, d.base, X8), CmdWrite(0x55, d.unlock2, d.base, X8)]
  }

  /** The cases in which erase refuses before touching the chip: no
      supported flash, an empty or out-of-range sector range, or every sector
      in it protected. */
  predicate Refused(f: Flash, protect: seq<bool>, first: int, last: int)
    requires |protect| == |f.starts|
  {
    f.size == 0 || first < 0 || first > last || last > |f.starts| - 1
    || LastUnprotected(protect, first, last).None?
  }

  /** The timer budget for the final poll: the per-sector erase time times
      the number of sectors in the range, as an `int` product. */
  function EraseBudget(d: Device, first: int, last: int): int
  {
    Signed32(d.eraseTime * (last - first + 1))
  }

  /** `flash_amdstd_erase`. Returns 1 without a bus cycle when refused;
      otherwise issues the erase setup and one 30h per unprotected sector in
      ascending order, then polls the last of them for FFh: 0 when the poll
      succeeds, else a reset and 1. */
  method EraseSectors(p: Port, f: Flash, protect: seq<bool>, first: int, last: int)
    returns (p': Port, rc: int)
    requires |protect| == |f.starts| >= 1
    ensures Refused(f, protect, first, last) ==> p' == p && rc == 1
    ensures !Refused(f, protect, first, last) ==>
      var sent := p.(trace := p.trace + EraseSetupWrites(f.dev) + EraseCommands(f.starts, protect, first, last));
      var poll := State(sent, f.starts[LastUnprotected(protect, first, last).value], ERASED,
                        EraseBudget(f.dev, first, last));
      && (rc == 0 <==> poll.1)
      && (rc == 0 || rc == 1)
      && p' == (if poll.1 then poll.0 else Put(poll.0, f.dev.base, RESET))
  {
    if f.size == 0 || first < 0 || first > last || first > |f.starts| - 1 || last > |f.starts| - 1 {
      return p, 1;
    }
    var nsect := last - first + 1;
    var prot := CountProtected(protect, first, last);
    if prot == nsect {
      return p, 1;
    }
    var d := f.dev;
    var lsect;
    p', lsect := SendSectorErases(p.(trace := p.trace + EraseSetupWrites(d)), f.starts, protect, first, last);
    var ok;
    p', ok := PollState(p', lsect, ERASED, EraseBudget(d, first, last));
    if !ok {
      p' := Put(p', CmdWrite(RESET, 0, d.base, X8).addr, RESET);
      return p', 1;
    }
    return p', 0;
  }

  /** The protection count of flash.c:725-728. */
  method CountProtected(protect: seq<bool>, first: nat, last: nat) returns (prot: int)
    requires first <= last < |protect|
    ensures prot == ProtectedCount(protect, first, last)
    ensures prot == last - first + 1 <==> LastUnprotected(protect, first, last).None?
  {
    prot := 0;
    var sect := first;
    while sect <= last
      invariant first <= sect <= last + 1
      invariant prot == ProtectedCount(protect, first, sect - 1)
    {
      if protect[sect] {
        prot := prot + 1;
      }
      sect := sect + 1;
    }
  }

  /** The loop of flash.c:744-748: a 30h to the start of each unprotected
      sector, in order; returns the last address written. */
  method SendSectorErases(p: Port, starts: seq<nat>, protect: seq<bool>, first: nat, last: nat)
    returns (p': Port, lsect: nat)
    requires |protect| == |starts| && first <= last < |starts|
    ensures p' == p.(trace := p.trace + EraseCommands(starts, protect, first, last))
    ensures LastUnprotected(protect, first, last).Some? ==>
      lsect == starts[LastUnprotected(protect, first, last).value]
  {
    var ws: seq<BusWrite> := [];
    lsect := 0;
    var sect := first;
    while sect <= last
      invariant first <= sect <= last + 1
      invariant ws == EraseCommands(starts, protect, first, sect - 1)
      invariant LastUnprotected(protect, first, sect - 1).Some? ==>
        lsect == starts[LastUnprotected(protect, first, sect - 1).value]
    {
      if !protect[sect] {
        lsect := starts[sect];
        ws := ws + [BusWrite(lsect, SECTOR_ERASE)];
      }
      sect := sect + 1;
    }
    p' := p.(trace := p.trace + ws);
  }

  /** The poller as a call. */
  method PollState(p: Port, addr: nat, target: Byte, timeout: int) returns (p': Port, ok: bool)
    ensures (p', ok) == State(p, addr, target, timeout)
    ensures ok <==> Succeeds(p, addr, target, Passes(timeout))
  {
    StateIsSucceeds(p, addr, target, timeout);
    p', ok := State(p, addr, target, timeout).0, State(p, addr, target, timeout).1;
  }
}
