/** The shape shared by the three write loops of flash.c (lines 798-821,
    843-854 and 876-887): a run of steps, each issuing some bus writes and
    then polling one address for one byte; the first poll that fails ends
    the run with a fixed tail of writes. The reference here describes every
    step from the port the steps before it leave, without an early exit. */
module Cycles {
  import opened CInt
  import opened Bus
  import opened Poll

  /** One step: the writes that start it, then a poll of addr for target. */
  datatype Step = Step(writes: seq<BusWrite>, addr: nat, target: Byte)

  /** The writes of a run of steps, in order. */
  function Flat(ss: seq<Step>): seq<BusWrite>
  {
    if ss == [] then [] else ss[0].writes + Flat(ss[1..])
  }

  /** The port before step k when every step before it polled successfully. */
  function Before(p: Port, ss: seq<Step>, timeout: int, k: nat): Port
    requires k <= |ss|
    decreases k, 0
  {
    if k == 0 then p
    else Polled(p, ss, timeout, k - 1).0
  }

  /** The poll of step k, on the port Before(k) with the step's writes added. */
  function Polled(p: Port, ss: seq<Step>, timeout: int, k: nat): (Port, bool)
    requires k < |ss|
    decreases k, 1
  {
    var q := Before(p, ss, timeout, k);
    State(q.(trace := q.trace + ss[k].writes), ss[k].addr, ss[k].target, timeout)
  }

  /** Every step's poll succeeds. */
  predicate AllOk(p: Port, ss: seq<Step>, timeout: int)
  {
    forall k :: 0 <= k < |ss| ==> Polled(p, ss, timeout, k).1
  }

  /** Step k is the first whose poll fails. */
  predicate FirstFail(p: Port, ss: seq<Step>, timeout: int, k: nat)
  {
    k < |ss| && !Polled(p, ss, timeout, k).1
    && forall j :: 0 <= j < k ==> Polled(p, ss, timeout, j).1
  }

  /** The loop itself: the steps in order, stopping after the tail at the
      first failed poll; true when every poll succeeded. */
  function RunSteps(p: Port, ss: seq<Step>, timeout: int, tail: seq<BusWrite>): (Port, bool)
    decreases |ss|
  {
    if ss == [] then (p, true)
    else
      var (q, ok) := State(p.(trace := p.trace + ss[0].writes), ss[0].addr, ss[0].target, timeout);
      if !ok then (q.(trace := q.trace + tail), false)
      else RunSteps(q, ss[1..], timeout, tail)
  }

  /** Dropping the first step: the later steps start from the port its poll
      leaves. */
  lemma {:induction false} BeforeShift(p: Port, ss: seq<Step>, timeout: int, k: nat)
    requires k < |ss|
    ensures Before(p, ss, timeout, k + 1) == Before(Polled(p, ss, timeout, 0).0, ss[1..], timeout, k)
    decreases k
  {
    if k > 0 {
      BeforeShift(p, ss, timeout, k - 1);
      assert ss[k] == ss[1..][k - 1];
    }
  }

  /** The same for the polls. */
  lemma PolledShift(p: Port, ss: seq<Step>, timeout: int, k: nat)
    requires k + 1 < |ss|
    ensures Polled(p, ss, timeout, k + 1) == Polled(Polled(p, ss, timeout, 0).0, ss[1..], timeout, k)
  {
    BeforeShift(p, ss, timeout, k);
    assert ss[k + 1] == ss[1..][k];
  }

  /** The loop reports success exactly when every step's poll succeeds. */
  lemma {:induction false} RunOk(p: Port, ss: seq<Step>, timeout: int, tail: seq<BusWrite>)
    ensures RunSteps(p, ss, timeout, tail).1 <==> AllOk(p, ss, timeout)
    decreases |ss|
  {
    if ss != [] {
      var p1 := Polled(p, ss, timeout, 0).0;
      RunOk(p1, ss[1..], timeout, tail);
      if Polled(p, ss, timeout, 0).1 {
        forall k | 0 <= k < |ss[1..]|
          ensures Polled(p1, ss[1..], timeout, k) == Polled(p, ss, timeout, k + 1)
        {
          PolledShift(p, ss, timeout, k);
        }
        AllOkCons(p, ss, timeout);
      }
    }
  }

  /** AllOk splits into the first step and the rest. */
  lemma AllOkCons(p: Port, ss: seq<Step>, timeout: int)
    requires ss != [] && Polled(p, ss, timeout, 0).1
    requires forall k :: 0 <= k < |ss[1..]| ==>
      Polled(Polled(p, ss, timeout, 0).0, ss[1..], timeout, k) == Polled(p, ss, timeout, k + 1)
    ensures AllOk(p, ss, timeout) <==> AllOk(Polled(p, ss, timeout, 0).0, ss[1..], timeout)
  {
    var p1 := Polled(p, ss, timeout, 0).0;
    if AllOk(p1, ss[1..], timeout) {
      forall k | 0 <= k < |ss|
        ensures Polled(p, ss, timeout, k).1
      {
        if k > 0 {
          assert Polled(p1, ss[1..], timeout, k - 1).1;
        }
      }
    }
  }

  /** When every poll succeeds, the loop leaves the port the last step's
      poll leaves. */
  lemma {:induction false} RunDone(p: Port, ss: seq<Step>, timeout: int, tail: seq<BusWrite>)
    requires AllOk(p, ss, timeout)
    ensures RunSteps(p, ss, timeout, tail).0 == Before(p, ss, timeout, |ss|)
    decreases |ss|
  {
    if ss != [] {
      var p1 := Polled(p, ss, timeout, 0).0;
      assert Polled(p, ss, timeout, 0).1;
      forall k | 0 <= k < |ss[1..]|
        ensures Polled(p1, ss[1..], timeout, k).1
      {
        PolledShift(p, ss, timeout, k);
        assert Polled(p, ss, timeout, k + 1).1;
      }
      RunDone(p1, ss[1..], timeout, tail);
      BeforeShift(p, ss, timeout, |ss| - 1);
    }
  }

  /** When step k is the first to fail, the loop stops right after that
      poll and adds the tail. */
  lemma {:induction false} RunFails(p: Port, ss: seq<Step>, timeout: int, tail: seq<BusWrite>, k: nat)
    requires FirstFail(p, ss, timeout, k)
    ensures var q := Polled(p, ss, timeout, k).0;
      RunSteps(p, ss, timeout, tail) == (q.(trace := q.trace + tail), false)
    decreases k
  {
    if k > 0 {
      var p1 := Polled(p, ss, timeout, 0).0;
      assert Polled(p, ss, timeout, 0).1;
      PolledShift(p, ss, timeout, k - 1);
      forall j | 0 <= j < k - 1
        ensures Polled(p1, ss[1..], timeout, j).1
      {
        PolledShift(p, ss, timeout, j);
        assert Polled(p, ss, timeout, j + 1).1;
      }
      RunFails(p1, ss[1..], timeout, tail, k - 1);
    }
  }

  /** Some step fails exactly when not all succeed, and then one is first. */
  lemma {:induction false} SomeFirstFail(p: Port, ss: seq<Step>, timeout: int, n: nat)
    requires n <= |ss|
    requires forall j :: 0 <= j < n ==> Polled(p, ss, timeout, j).1
    requires !AllOk(p, ss, timeout)
    ensures exists k :: FirstFail(p, ss, timeout, k)
    decreases |ss| - n
  {
    if Polled(p, ss, timeout, n).1 {
      SomeFirstFail(p, ss, timeout, n + 1);
    } else {
      assert FirstFail(p, ss, timeout, n);
    }
  }

  /** Before step k, the steps before it have written their writes in order,
      and the chip is untouched. */
  lemma {:induction false} BeforeTrace(p: Port, ss: seq<Step>, timeout: int, k: nat)
    requires k <= |ss|
    ensures Before(p, ss, timeout, k).trace == p.trace + Flat(ss[..k])
    ensures Before(p, ss, timeout, k).chip == p.chip
    decreases k
  {
    if k > 0 {
      BeforeTrace(p, ss, timeout, k - 1);
      var q := Before(p, ss, timeout, k - 1);
      StateIsSucceeds(q.(trace := q.trace + ss[k - 1].writes), ss[k - 1].addr, ss[k - 1].target, timeout);
      FlatSnoc(ss[..k - 1], ss[k - 1]);
      assert ss[..k] == ss[..k - 1] + [ss[k - 1]];
    }
  }

  lemma {:induction false} FlatSnoc(ss: seq<Step>, s: Step)
    ensures Flat(ss + [s]) == Flat(ss) + s.writes
    decreases |ss|
  {
    if ss != [] {
      assert (ss + [s])[1..] == ss[1..] + [s];
      FlatSnoc(ss[1..], s);
    }
  }

  /** At a timeout in step k the trace is the writes of steps 0..k followed
      by the tail. */
  lemma FailTrace(p: Port, ss: seq<Step>, timeout: int, tail: seq<BusWrite>, k: nat)
    requires FirstFail(p, ss, timeout, k)
    ensures RunSteps(p, ss, timeout, tail).0.trace == p.trace + Flat(ss[..k + 1]) + tail
  {
    RunFails(p, ss, timeout, tail, k);
    BeforeTrace(p, ss, timeout, k + 1);
  }
}
