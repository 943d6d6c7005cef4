/** The DQ7/DQ5 status poller `flash_amdstd_state` (flash.c:646-666).
    Time is counted in timer ticks: each pass of the `do … while` loop takes
    one tick, so the loop makes as many passes as the unsigned timeout allows,
    and always at least one. */
module Poll {
  import opened CInt
  import opened Bus

  /** A read matches when its bit 7 equals the target's bit 7. */
  predicate Matches(d: Byte, target: Byte)
  {
    Bit7(d) == Bit7(target)
  }

  /** Passes the loop makes before `get_timer(start) < timeout` fails; the
      `int` timeout is compared as an `unsigned long`. */
  function Passes(timeout: int): (r: nat)
    ensures r >= 1
    ensures 1 <= timeout < TWO32 ==> r == timeout
    ensures timeout == 0 ==> r == 1
    ensures -0x8000_0000 <= timeout < 0 ==> r == timeout + TWO32
  {
    var t := Wrap32(timeout);
    if t == 0 then 1 else t
  }

  /** The poll loop with `left` passes still allowed; returns the port (with
      its reads counted) and whether the poll succeeded. */
  function Loop(p: Port, addr: nat, target: Byte, left: nat): (Port, bool)
    decreases left
  {
    var (p1, d) := ReadArray(p, addr);
    if Matches(d, target) then (p1, true)
    else if Bit5(d) then
      var (p2, d2) := ReadArray(p1, addr);
      (p2, Matches(d2, target))
    else if left > 1 then Loop(p1, addr, target, left - 1)
    else (p1, false)
  }

  function State(p: Port, addr: nat, target: Byte, timeout: int): (Port, bool)
  {
    Loop(p, addr, target, Passes(timeout))
  }

  /** A pass that neither matches nor reports DQ5. */
  predicate Quiet(p: Port, addr: nat, target: Byte, k: nat)
  {
    !Matches(Peek(p, addr, k), target) && !Bit5(Peek(p, addr, k))
  }

  /** Pass j decides the poll successfully: it matches at once, or it reports
      DQ5 and the single re-read matches. */
  predicate DecidesOk(p: Port, addr: nat, target: Byte, j: nat)
  {
    Matches(Peek(p, addr, j), target)
    || (Bit5(Peek(p, addr, j)) && Matches(Peek(p, addr, j + 1), target))
  }

  /** Reference outcome: some pass within the budget succeeds, and every pass
      before it was quiet. */
  predicate Succeeds(p: Port, addr: nat, target: Byte, left: nat)
  {
    exists j: nat :: j < left && DecidesOk(p, addr, target, j)
      && (forall i: nat :: i < j ==> Quiet(p, addr, target, i))
  }

  /** Number of reads the poll performs: passes up to and including the
      deciding one, plus one for a DQ5 re-read. */
  lemma {:induction false} LoopShape(p: Port, addr: nat, target: Byte, left: nat)
    ensures Loop(p, addr, target, left).0.chip == p.chip
    ensures Loop(p, addr, target, left).0.trace == p.trace
    ensures Loop(p, addr, target, left).0.nreads >= p.nreads + 1
    ensures Loop(p, addr, target, left).0.nreads <= p.nreads + (if left <= 1 then 1 else left) + 1
    decreases left
  {
    var d := Peek(p, addr, 0);
    if !Matches(d, target) && !Bit5(d) && left > 1 {
      LoopShape(p.(nreads := p.nreads + 1), addr, target, left - 1);
    }
  }

  /** The poll succeeds exactly when the reference outcome says so. */
  lemma {:induction false} LoopIsSucceeds(p: Port, addr: nat, target: Byte, left: nat)
    requires left >= 1
    ensures Loop(p, addr, target, left).1 <==> Succeeds(p, addr, target, left)
    decreases left
  {
    var p1 := p.(nreads := p.nreads + 1);
    var d := Peek(p, addr, 0);
    if Matches(d, target) {
      assert DecidesOk(p, addr, target, 0);
    } else if Bit5(d) {
      assert Peek(p1, addr, 0) == Peek(p, addr, 1);
      if Matches(Peek(p, addr, 1), target) {
        assert DecidesOk(p, addr, target, 0);
      } else {
        assert !Quiet(p, addr, target, 0);
        assert !DecidesOk(p, addr, target, 0);
        assert !Succeeds(p, addr, target, left);
      }
    } else if left > 1 {
      LoopIsSucceeds(p1, addr, target, left - 1);
      assert forall k: nat :: Peek(p1, addr, k) == Peek(p, addr, k + 1);
      if Succeeds(p1, addr, target, left - 1) {
        var j: nat :| j < left - 1 && DecidesOk(p1, addr, target, j)
          && (forall i: nat :: i < j ==> Quiet(p1, addr, target, i));
        assert DecidesOk(p, addr, target, j + 1);
        forall i: nat | i < j + 1
          ensures Quiet(p, addr, target, i)
        {
          if i > 0 {
            assert Quiet(p1, addr, target, i - 1);
          }
        }
      }
      if Succeeds(p, addr, target, left) {
        var j: nat :| j < left && DecidesOk(p, addr, target, j)
          && (forall i: nat :: i < j ==> Quiet(p, addr, target, i));
        assert !DecidesOk(p, addr, target, 0);
        assert j != 0;
        assert DecidesOk(p1, addr, target, j - 1);
        forall i: nat | i < j - 1
          ensures Quiet(p1, addr, target, i)
        {
          assert Quiet(p, addr, target, i + 1);
        }
        assert Succeeds(p1, addr, target, left - 1);
      }
    } else {
      assert !DecidesOk(p, addr, target, 0);
      assert !Succeeds(p, addr, target, left);
    }
  }

  /** `flash_amdstd_state` succeeds iff some pass within the timer budget
      decides success after only quiet passes; it never writes. */
  lemma StateIsSucceeds(p: Port, addr: nat, target: Byte, timeout: int)
    ensures State(p, addr, target, timeout).1 <==> Succeeds(p, addr, target, Passes(timeout))
    ensures State(p, addr, target, timeout).0.trace == p.trace
    ensures State(p, addr, target, timeout).0.chip == p.chip
    ensures State(p, addr, target, timeout).0.nreads >= p.nreads + 1
  {
    LoopIsSucceeds(p, addr, target, Passes(timeout));
    LoopShape(p, addr, target, Passes(timeout));
  }

  /** A first read whose bit 7 matches ends the poll successfully after one read. */
  lemma FirstReadMatches(p: Port, addr: nat, target: Byte, timeout: int)
    requires Matches(Peek(p, addr, 0), target)
    ensures State(p, addr, target, timeout) == (p.(nreads := p.nreads + 1), true)
  {
  }

  /** DQ5 on a non-matching read: exactly one more read decides the poll. */
  lemma Dq5DecidesOnReRead(p: Port, addr: nat, target: Byte, timeout: int)
    requires !Matches(Peek(p, addr, 0), target) && Bit5(Peek(p, addr, 0))
    ensures State(p, addr, target, timeout).0.nreads == p.nreads + 2
    ensures State(p, addr, target, timeout).1 <==> Matches(Peek(p, addr, 1), target)
  {
  }

  /** When every pass is quiet the poll fails, and only after the timer has
      reached the budget: it has made every pass the budget allows. */
  lemma {:induction false} QuietTimesOut(p: Port, addr: nat, target: Byte, left: nat)
    requires left >= 1
    requires forall i: nat :: i < left ==> Quiet(p, addr, target, i)
    ensures Loop(p, addr, target, left) == (p.(nreads := p.nreads + left), false)
    decreases left
  {
    assert Quiet(p, addr, target, 0);
    if left > 1 {
      var p1 := p.(nreads := p.nreads + 1);
      forall i: nat | i < left - 1
        ensures Quiet(p1, addr, target, i)
      {
        assert Quiet(p, addr, target, i + 1);
      }
      QuietTimesOut(p1, addr, target, left - 1);
    }
  }
}
