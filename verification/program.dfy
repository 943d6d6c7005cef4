/** The three write routines and the read-back verify (flash.c:672-890):
    byte program (`flash_amdstd_write`), unlock-bypass program
    (`flash_amdstd_wubyp`) and write-buffer program (`flash_amdstd_wbuff`).
    Each returns 0 on success and 1 after a poll timeout. */
module Program {
  import opened CInt
  import opened Bus
  import opened Poll
  import opened Setup
  import opened Cycles

  const PROGRAM: Byte := 0xA0
  const BYPASS: Byte := 0x20
  const BYPASS_RESET: Byte := 0x90
  const WRITE_TO_BUFFER: Byte := 0x25
  const BUFFER_CONFIRM: Byte := 0x29

  /** What a writer leaves behind: the port and the C return code. */
  datatype Outcome = Outcome(port: Port, rc: int)

  function Append(p: Port, ws: seq<BusWrite>): Port
  {
    p.(trace := p.trace + ws)
  }

  /** The reset command at byte width. */
  function ResetCmd(d: Device): BusWrite
  {
    CmdWrite(RESET, 0, d.base, X8)
  }

  /** The two unlock cycles at byte width. */
  function Unlock(d: Device): seq<BusWrite>
  {
    [CmdWrite(0xAA, d.unlock1, d.base, X8), CmdWrite(0x55, d.unlock2, d.base, X8)]
  }

  /** One byte-program cycle: unlock, A0h, then the data byte at its address. */
  function ProgramCycle(d: Device, a: nat, v: Byte): seq<BusWrite>
  {
    Unlock(d) + [CmdWrite(PROGRAM, d.unlock1, d.base, X8), BusWrite(a, v)]
  }

  /** The exit sequence of unlock-bypass mode: 90h, 00h, F0h at offset 0. */
  function BypassExit(d: Device): seq<BusWrite>
  {
    [CmdWrite(BYPASS_RESET, 0, d.base, X8), CmdWrite(0, 0, d.base, X8), ResetCmd(d)]
  }

  /** A writer's effect on the port: only appends to the trace. */
  ghost predicate Extends(p: Port, q: Port)
  {
    q.chip == p.chip && p.trace <= q.trace && q.nreads >= p.nreads
  }

  /** The last write is the reset, as after every failed poll. */
  predicate EndsWithReset(q: Port, d: Device)
  {
    |q.trace| > 0 && q.trace[|q.trace| - 1] == ResetCmd(d)
  }

  lemma StateExtends(p: Port, addr: nat, target: Byte, timeout: int)
    ensures Extends(p, State(p, addr, target, timeout).0)
    ensures State(p, addr, target, timeout).0.trace == p.trace
  {
    StateIsSucceeds(p, addr, target, timeout);
  }

  // -------------------------------------------------------------- verify

  /** `flash_amdstd_vrfy` from byte i on: each byte is read back once; a
      mismatch reads the byte once more for its message, then gets one
      byte-program cycle and one poll, and the poll alone decides; a failed
      poll resets and returns 1. */
  function Verify(p: Port, d: Device, buf: seq<Byte>, addr: nat, i: nat): (r: Outcome)
    requires i <= |buf|
    ensures r.rc == 0 || r.rc == 1
    ensures Extends(p, r.port)
    ensures r.rc == 1 ==> EndsWithReset(r.port, d)
    decreases |buf| - i
  {
    if i == |buf| then Outcome(p, 0)
    else
      var a := addr + i;
      var (p1, v) := ReadArray(p, a);
      if v == buf[i] then Verify(p1, d, buf, addr, i + 1)
      else
        var p2 := Append(ReadArray(p1, a).0, ProgramCycle(d, a, buf[i]));
        var (p3, ok) := State(p2, a, buf[i], d.wrdWrTime);
        StateExtends(p2, a, buf[i], d.wrdWrTime);
        if !ok then Outcome(Append(p3, [ResetCmd(d)]), 1)
        else Verify(p3, d, buf, addr, i + 1)
  }

  /** The chip reads back buf[k] at addr + k, at every read. */
  ghost predicate Holds(c: Chip, addr: nat, buf: seq<Byte>)
  {
    forall n: nat, a: nat :: addr <= a < addr + |buf| ==> c.arrayRead(n, a) == buf[a - addr]
  }

  /** Reading back what was meant to be written: verify makes one read per
      byte, writes nothing and returns 0. */
  lemma {:induction false} VerifyHolds(p: Port, d: Device, buf: seq<Byte>, addr: nat, i: nat)
    requires i <= |buf| && Holds(p.chip, addr, buf)
    ensures Verify(p, d, buf, addr, i) == Outcome(p.(nreads := p.nreads + |buf| - i), 0)
    decreases |buf| - i
  {
    if i < |buf| {
      assert p.chip.arrayRead(p.nreads, addr + i) == buf[addr + i - addr];
      VerifyHolds(p.(nreads := p.nreads + 1), d, buf, addr, i + 1);
    }
  }

  /** A mismatching byte gets one more read, exactly one reprogram cycle
      and one poll: when that poll fails, verify stops there with a reset
      and 1. */
  lemma VerifyRetryFails(p: Port, d: Device, buf: seq<Byte>, addr: nat, i: nat)
    requires i < |buf| && Peek(p, addr + i, 0) != buf[i]
    requires !State(Append(p.(nreads := p.nreads + 2), ProgramCycle(d, addr + i, buf[i])),
                    addr + i, buf[i], d.wrdWrTime).1
    ensures Verify(p, d, buf, addr, i) ==
      var p3 := State(Append(p.(nreads := p.nreads + 2), ProgramCycle(d, addr + i, buf[i])),
                      addr + i, buf[i], d.wrdWrTime).0;
      Outcome(Append(p3, [ResetCmd(d)]), 1)
  {
  }

  /** A byte that reads back right costs one read and nothing else. */
  lemma VerifyMatch(p: Port, d: Device, buf: seq<Byte>, addr: nat, i: nat)
    requires i < |buf| && Peek(p, addr + i, 0) == buf[i]
    ensures Verify(p, d, buf, addr, i) == Verify(p.(nreads := p.nreads + 1), d, buf, addr, i + 1)
  {
  }

  /** A mismatching byte whose reprogram poll succeeds does not fail the
      verify: it goes on with the next byte from the port that poll leaves. */
  lemma VerifyRetrySucceeds(p: Port, d: Device, buf: seq<Byte>, addr: nat, i: nat)
    requires i < |buf| && Peek(p, addr + i, 0) != buf[i]
    requires State(Append(p.(nreads := p.nreads + 2), ProgramCycle(d, addr + i, buf[i])),
                   addr + i, buf[i], d.wrdWrTime).1
    ensures Verify(p, d, buf, addr, i) ==
      var p3 := State(Append(p.(nreads := p.nreads + 2), ProgramCycle(d, addr + i, buf[i])),
                      addr + i, buf[i], d.wrdWrTime).0;
      Verify(p3, d, buf, addr, i + 1)
  {
  }

  // ------------------------------------------------------- byte program

  /** The byte-program loop from byte i on. */
  function ByteLoop(p: Port, d: Device, buf: seq<Byte>, addr: nat, i: nat): (r: Outcome)
    requires i <= |buf|
    ensures r.rc == 0 || r.rc == 1
    ensures Extends(p, r.port)
    ensures r.rc == 1 ==> EndsWithReset(r.port, d)
    decreases |buf| - i
  {
    if i == |buf| then Outcome(p, 0)
    else
      var a := addr + i;
      var p1 := Append(p, ProgramCycle(d, a, buf[i]));
      var (p2, ok) := State(p1, a, buf[i], d.wrdWrTime);
      StateExtends(p1, a, buf[i], d.wrdWrTime);
      if !ok then Outcome(Append(p2, [ResetCmd(d)]), 1)
      else ByteLoop(p2, d, buf, addr, i + 1)
  }

  /** `flash_amdstd_write`: reset, one program cycle and poll per byte,
      reset, then verify over the whole range, reached only when every poll
      succeeded. */
  function ByteProgram(p: Port, d: Device, buf: seq<Byte>, addr: nat): (r: Outcome)
    ensures r.rc == 0 || r.rc == 1
    ensures Extends(p, r.port)
    ensures r.rc == 1 ==> EndsWithReset(r.port, d)
  {
    var l := ByteLoop(Append(p, [ResetCmd(d)]), d, buf, addr, 0);
    if l.rc != 0 then l
    else Verify(Append(l.port, [ResetCmd(d)]), d, buf, addr, 0)
  }

  /** The program cycles for bytes i.. of buf. */
  function ProgramCycles(d: Device, buf: seq<Byte>, addr: nat, i: nat): seq<BusWrite>
    requires i <= |buf|
    decreases |buf| - i
  {
    if i == |buf| then [] else ProgramCycle(d, addr + i, buf[i]) + ProgramCycles(d, buf, addr, i + 1)
  }

  lemma {:induction false} ByteLoopHolds(p: Port, d: Device, buf: seq<Byte>, addr: nat, i: nat)
    requires i <= |buf| && Holds(p.chip, addr, buf)
    ensures ByteLoop(p, d, buf, addr, i) ==
      Outcome(p.(trace := p.trace + ProgramCycles(d, buf, addr, i), nreads := p.nreads + |buf| - i), 0)
    decreases |buf| - i
  {
    if i < |buf| {
      var p1 := Append(p, ProgramCycle(d, addr + i, buf[i]));
      FirstReadMatches(p1, addr + i, buf[i], d.wrdWrTime);
      var p2 := p1.(nreads := p1.nreads + 1);
      ByteLoopHolds(p2, d, buf, addr, i + 1);
      assert p.trace + ProgramCycle(d, addr + i, buf[i]) + ProgramCycles(d, buf, addr, i + 1)
          == p.trace + ProgramCycles(d, buf, addr, i);
    }
  }

  /** On a chip that holds the data, byte program succeeds, and its writes
      are a reset, one program cycle per byte at consecutive addresses, and a
      reset; it reads each byte twice (one poll, one verify). */
  lemma ByteProgramHolds(p: Port, d: Device, buf: seq<Byte>, addr: nat)
    requires Holds(p.chip, addr, buf)
    ensures ByteProgram(p, d, buf, addr) ==
      Outcome(p.(trace := p.trace + [ResetCmd(d)] + ProgramCycles(d, buf, addr, 0) + [ResetCmd(d)],
                 nreads := p.nreads + 2 * |buf|), 0)
  {
    var p0 := Append(p, [ResetCmd(d)]);
    ByteLoopHolds(p0, d, buf, addr, 0);
    var l := ByteLoop(p0, d, buf, addr, 0);
    VerifyHolds(Append(l.port, [ResetCmd(d)]), d, buf, addr, 0);
  }

  /** The steps of the byte-program loop from byte i on: each byte's
      program cycle, then a poll of its address for it. */
  function ByteSteps(d: Device, buf: seq<Byte>, addr: nat, i: nat): (ss: seq<Step>)
    requires i <= |buf|
    ensures |ss| == |buf| - i
    ensures forall j :: 0 <= j < |ss| ==>
      ss[j] == Step(ProgramCycle(d, addr + i + j, buf[i + j]), addr + i + j, buf[i + j])
    decreases |buf| - i
  {
    if i == |buf| then []
    else [Step(ProgramCycle(d, addr + i, buf[i]), addr + i, buf[i])] + ByteSteps(d, buf, addr, i + 1)
  }

  /** The byte-program loop is the step run over its steps, with the reset
      as the tail of a failed poll. */
  lemma {:induction false} ByteLoopRuns(p: Port, d: Device, buf: seq<Byte>, addr: nat, i: nat)
    requires i <= |buf|
    ensures var r := RunSteps(p, ByteSteps(d, buf, addr, i), d.wrdWrTime, [ResetCmd(d)]);
      ByteLoop(p, d, buf, addr, i) == Outcome(r.0, if r.1 then 0 else 1)
    decreases |buf| - i
  {
    if i < |buf| {
      var p1 := Append(p, ProgramCycle(d, addr + i, buf[i]));
      ByteLoopRuns(State(p1, addr + i, buf[i], d.wrdWrTime).0, d, buf, addr, i + 1);
      assert ByteSteps(d, buf, addr, i)[1..] == ByteSteps(d, buf, addr, i + 1);
    }
  }

  lemma {:induction false} ByteStepsWrites(d: Device, buf: seq<Byte>, addr: nat, i: nat)
    requires i <= |buf|
    ensures Flat(ByteSteps(d, buf, addr, i)) == ProgramCycles(d, buf, addr, i)
    decreases |buf| - i
  {
    if i < |buf| {
      ByteStepsWrites(d, buf, addr, i + 1);
      assert ByteSteps(d, buf, addr, i)[1..] == ByteSteps(d, buf, addr, i + 1);
    }
  }

  lemma ByteStepsPrefix(d: Device, buf: seq<Byte>, addr: nat, n: nat)
    requires n <= |buf|
    ensures ByteSteps(d, buf, addr, 0)[..n] == ByteSteps(d, buf[..n], addr, 0)
  {
    var a := ByteSteps(d, buf, addr, 0)[..n];
    var b := ByteSteps(d, buf[..n], addr, 0);
    forall j | 0 <= j < n
      ensures a[j] == b[j]
    {
      assert buf[..n][0 + j] == buf[0 + j];
    }
  }

  /** `flash_amdstd_write` returns 0 exactly when every byte's poll succeeds
      and the verify after the closing reset returns 0; then the result is
      that verify's. */
  lemma ByteProgramOutcome(p: Port, d: Device, buf: seq<Byte>, addr: nat)
    ensures var p0 := Append(p, [ResetCmd(d)]);
      var ss := ByteSteps(d, buf, addr, 0);
      var v := Verify(Append(Before(p0, ss, d.wrdWrTime, |ss|), [ResetCmd(d)]), d, buf, addr, 0);
      && (ByteProgram(p, d, buf, addr).rc == 0 <==> AllOk(p0, ss, d.wrdWrTime) && v.rc == 0)
      && (AllOk(p0, ss, d.wrdWrTime) ==> ByteProgram(p, d, buf, addr) == v)
  {
    var p0 := Append(p, [ResetCmd(d)]);
    var ss := ByteSteps(d, buf, addr, 0);
    ByteLoopRuns(p0, d, buf, addr, 0);
    RunOk(p0, ss, d.wrdWrTime, [ResetCmd(d)]);
    if AllOk(p0, ss, d.wrdWrTime) {
      RunDone(p0, ss, d.wrdWrTime, [ResetCmd(d)]);
    }
  }

  /** When the poll of byte k is the first to time out, the byte loop
      stops right there with a reset and 1: its writes are the program
      cycles of bytes 0..k and the reset. */
  lemma ByteLoopTimeout(p: Port, d: Device, buf: seq<Byte>, addr: nat, k: nat)
    requires FirstFail(p, ByteSteps(d, buf, addr, 0), d.wrdWrTime, k)
    ensures var q := Polled(p, ByteSteps(d, buf, addr, 0), d.wrdWrTime, k).0;
      ByteLoop(p, d, buf, addr, 0) == Outcome(Append(q, [ResetCmd(d)]), 1)
    ensures ByteLoop(p, d, buf, addr, 0).port.trace ==
      p.trace + ProgramCycles(d, buf[..k + 1], addr, 0) + [ResetCmd(d)]
  {
    var ss := ByteSteps(d, buf, addr, 0);
    ByteLoopRuns(p, d, buf, addr, 0);
    RunFails(p, ss, d.wrdWrTime, [ResetCmd(d)], k);
    FailTrace(p, ss, d.wrdWrTime, [ResetCmd(d)], k);
    ByteStepsPrefix(d, buf, addr, k + 1);
    ByteStepsWrites(d, buf[..k + 1], addr, 0);
  }

  /** When the poll of byte k is the first to time out, `flash_amdstd_write`
      returns what the loop leaves, never reaching the verify: its writes
      are the opening reset, the program cycles of bytes 0..k, and a
      reset. */
  lemma ByteProgramTimeout(p: Port, d: Device, buf: seq<Byte>, addr: nat, k: nat)
    requires FirstFail(Append(p, [ResetCmd(d)]), ByteSteps(d, buf, addr, 0), d.wrdWrTime, k)
    ensures var q := Polled(Append(p, [ResetCmd(d)]), ByteSteps(d, buf, addr, 0), d.wrdWrTime, k).0;
      ByteProgram(p, d, buf, addr) == Outcome(Append(q, [ResetCmd(d)]), 1)
    ensures ByteProgram(p, d, buf, addr).port.trace ==
      p.trace + [ResetCmd(d)] + ProgramCycles(d, buf[..k + 1], addr, 0) + [ResetCmd(d)]
  {
    ByteLoopTimeout(Append(p, [ResetCmd(d)]), d, buf, addr, k);
  }

  // ------------------------------------------------ unlock-bypass program

  /** The unlock-bypass loop from byte i on: A0h and the data byte at the
      target address, then a poll; a failed poll exits bypass mode. */
  function BypassLoop(p: Port, d: Device, buf: seq<Byte>, addr: nat, i: nat): (r: Outcome)
    requires i <= |buf|
    ensures r.rc == 0 || r.rc == 1
    ensures Extends(p, r.port)
    ensures r.rc == 1 ==> EndsWithReset(r.port, d)
    decreases |buf| - i
  {
    if i == |buf| then Outcome(p, 0)
    else
      var a := addr + i;
      var p1 := Append(p, [BusWrite(a, PROGRAM), BusWrite(a, buf[i])]);
      var (p2, ok) := State(p1, a, buf[i], d.wrdWrTime);
      StateExtends(p1, a, buf[i], d.wrdWrTime);
      if !ok then Outcome(Append(p2, BypassExit(d)), 1)
      else BypassLoop(p2, d, buf, addr, i + 1)
  }

  /** `flash_amdstd_wubyp`: enter bypass, program each byte, exit bypass,
      then verify, reached only when every poll succeeded. */
  function BypassProgram(p: Port, d: Device, buf: seq<Byte>, addr: nat): (r: Outcome)
    ensures r.rc == 0 || r.rc == 1
    ensures Extends(p, r.port)
    ensures r.rc == 1 ==> EndsWithReset(r.port, d)
  {
    var l := BypassLoop(Append(p, Unlock(d) + [CmdWrite(BYPASS, d.unlock1, d.base, X8)]), d, buf, addr, 0);
    if l.rc != 0 then l
    else Verify(Append(l.port, BypassExit(d)), d, buf, addr, 0)
  }

  function BypassCycles(buf: seq<Byte>, addr: nat, i: nat): seq<BusWrite>
    requires i <= |buf|
    decreases |buf| - i
  {
    if i == |buf| then []
    else [BusWrite(addr + i, PROGRAM), BusWrite(addr + i, buf[i])] + BypassCycles(buf, addr, i + 1)
  }

  lemma {:induction false} BypassLoopHolds(p: Port, d: Device, buf: seq<Byte>, addr: nat, i: nat)
    requires i <= |buf| && Holds(p.chip, addr, buf)
    ensures BypassLoop(p, d, buf, addr, i) ==
      Outcome(p.(trace := p.trace + BypassCycles(buf, addr, i), nreads := p.nreads + |buf| - i), 0)
    decreases |buf| - i
  {
    if i < |buf| {
      var p1 := Append(p, [BusWrite(addr + i, PROGRAM), BusWrite(addr + i, buf[i])]);
      BypassLoopHolds(p1.(nreads := p1.nreads + 1), d, buf, addr, i + 1);
      BypassLoopCons(p, d, buf, addr, i);
    }
  }

  /** The inductive step: two writes and one poll read for byte i, then
      the rest of the loop as the hypothesis has it. */
  lemma BypassLoopCons(p: Port, d: Device, buf: seq<Byte>, addr: nat, i: nat)
    requires i < |buf| && Holds(p.chip, addr, buf)
    requires var p1 := Append(p, [BusWrite(addr + i, PROGRAM), BusWrite(addr + i, buf[i])]).(nreads := p.nreads + 1);
      BypassLoop(p1, d, buf, addr, i + 1) ==
      Outcome(p1.(trace := p1.trace + BypassCycles(buf, addr, i + 1), nreads := p1.nreads + |buf| - (i + 1)), 0)
    ensures BypassLoop(p, d, buf, addr, i) ==
      Outcome(p.(trace := p.trace + BypassCycles(buf, addr, i), nreads := p.nreads + |buf| - i), 0)
  {
    var two := [BusWrite(addr + i, PROGRAM), BusWrite(addr + i, buf[i])];
    var p1 := Append(p, two);
    assert Peek(p1, addr + i, 0) == buf[i];
    FirstReadMatches(p1, addr + i, buf[i], d.wrdWrTime);
    AppendTwice(p, two, BypassCycles(buf, addr, i + 1), |buf| - (i + 1));
  }

  /** On a chip that holds the data, unlock-bypass program succeeds with
      one unlock and bypass entry, two writes per byte at consecutive
      addresses, and the bypass exit. */
  lemma BypassProgramHolds(p: Port, d: Device, buf: seq<Byte>, addr: nat)
    requires Holds(p.chip, addr, buf)
    ensures BypassProgram(p, d, buf, addr) ==
      Outcome(p.(trace := p.trace + Unlock(d) + [CmdWrite(BYPASS, d.unlock1, d.base, X8)]
                          + BypassCycles(buf, addr, 0) + BypassExit(d),
                 nreads := p.nreads + 2 * |buf|), 0)
  {
    var p0 := Append(p, Unlock(d) + [CmdWrite(BYPASS, d.unlock1, d.base, X8)]);
    BypassLoopHolds(p0, d, buf, addr, 0);
    var l := BypassLoop(p0, d, buf, addr, 0);
    VerifyHolds(Append(l.port, BypassExit(d)), d, buf, addr, 0);
    assert p.trace + Unlock(d) + [CmdWrite(BYPASS, d.unlock1, d.base, X8)] + BypassCycles(buf, addr, 0) + BypassExit(d)
        == p0.trace + BypassCycles(buf, addr, 0) + BypassExit(d);
  }

  /** The steps of the unlock-bypass loop from byte i on: A0h and the data
      byte at its address, then a poll of that address for it. */
  function BypassSteps(buf: seq<Byte>, addr: nat, i: nat): (ss: seq<Step>)
    requires i <= |buf|
    ensures |ss| == |buf| - i
    ensures forall j :: 0 <= j < |ss| ==>
      ss[j] == Step([BusWrite(addr + i + j, PROGRAM), BusWrite(addr + i + j, buf[i + j])], addr + i + j, buf[i + j])
    decreases |buf| - i
  {
    if i == |buf| then []
    else [Step([BusWrite(addr + i, PROGRAM), BusWrite(addr + i, buf[i])], addr + i, buf[i])] + BypassSteps(buf, addr, i + 1)
  }

  /** The unlock-bypass loop is the step run over its steps, with the bypass
      exit as the tail of a failed poll. */
  lemma {:induction false} BypassLoopRuns(p: Port, d: Device, buf: seq<Byte>, addr: nat, i: nat)
    requires i <= |buf|
    ensures var r := RunSteps(p, BypassSteps(buf, addr, i), d.wrdWrTime, BypassExit(d));
      BypassLoop(p, d, buf, addr, i) == Outcome(r.0, if r.1 then 0 else 1)
    decreases |buf| - i
  {
    if i < |buf| {
      var p1 := Append(p, [BusWrite(addr + i, PROGRAM), BusWrite(addr + i, buf[i])]);
      BypassLoopRuns(State(p1, addr + i, buf[i], d.wrdWrTime).0, d, buf, addr, i + 1);
      assert BypassSteps(buf, addr, i)[1..] == BypassSteps(buf, addr, i + 1);
    }
  }

  lemma {:induction false} BypassStepsWrites(buf: seq<Byte>, addr: nat, i: nat)
    requires i <= |buf|
    ensures Flat(BypassSteps(buf, addr, i)) == BypassCycles(buf, addr, i)
    decreases |buf| - i
  {
    if i < |buf| {
      BypassStepsWrites(buf, addr, i + 1);
      assert BypassSteps(buf, addr, i)[1..] == BypassSteps(buf, addr, i + 1);
    }
  }

  lemma BypassStepsPrefix(buf: seq<Byte>, addr: nat, n: nat)
    requires n <= |buf|
    ensures BypassSteps(buf, addr, 0)[..n] == BypassSteps(buf[..n], addr, 0)
  {
    var a := BypassSteps(buf, addr, 0)[..n];
    var b := BypassSteps(buf[..n], addr, 0);
    forall j | 0 <= j < n
      ensures a[j] == b[j]
    {
      assert buf[..n][0 + j] == buf[0 + j];
    }
  }

  /** The port the bypass loop starts from: unlock and bypass entry. */
  function BypassEntered(p: Port, d: Device): Port
  {
    Append(p, Unlock(d) + [CmdWrite(BYPASS, d.unlock1, d.base, X8)])
  }

  /** `flash_amdstd_wubyp` returns 0 exactly when every byte's poll succeeds
      and the verify after the bypass exit returns 0; then the result is
      that verify's. */
  lemma BypassProgramOutcome(p: Port, d: Device, buf: seq<Byte>, addr: nat)
    ensures var p0 := BypassEntered(p, d);
      var ss := BypassSteps(buf, addr, 0);
      var v := Verify(Append(Before(p0, ss, d.wrdWrTime, |ss|), BypassExit(d)), d, buf, addr, 0);
      && (BypassProgram(p, d, buf, addr).rc == 0 <==> AllOk(p0, ss, d.wrdWrTime) && v.rc == 0)
      && (AllOk(p0, ss, d.wrdWrTime) ==> BypassProgram(p, d, buf, addr) == v)
  {
    var p0 := BypassEntered(p, d);
    var ss := BypassSteps(buf, addr, 0);
    BypassLoopRuns(p0, d, buf, addr, 0);
    RunOk(p0, ss, d.wrdWrTime, BypassExit(d));
    if AllOk(p0, ss, d.wrdWrTime) {
      RunDone(p0, ss, d.wrdWrTime, BypassExit(d));
    }
  }

  /** When the poll of byte k is the first to time out, the bypass loop
      stops right there and leaves bypass mode with 1: its writes are the
      two writes of each of bytes 0..k and the bypass exit. */
  lemma BypassLoopTimeout(p: Port, d: Device, buf: seq<Byte>, addr: nat, k: nat)
    requires FirstFail(p, BypassSteps(buf, addr, 0), d.wrdWrTime, k)
    ensures var q := Polled(p, BypassSteps(buf, addr, 0), d.wrdWrTime, k).0;
      BypassLoop(p, d, buf, addr, 0) == Outcome(Append(q, BypassExit(d)), 1)
    ensures BypassLoop(p, d, buf, addr, 0).port.trace ==
      p.trace + BypassCycles(buf[..k + 1], addr, 0) + BypassExit(d)
  {
    var ss := BypassSteps(buf, addr, 0);
    BypassLoopRuns(p, d, buf, addr, 0);
    RunFails(p, ss, d.wrdWrTime, BypassExit(d), k);
    FailTrace(p, ss, d.wrdWrTime, BypassExit(d), k);
    BypassStepsPrefix(buf, addr, k + 1);
    BypassStepsWrites(buf[..k + 1], addr, 0);
  }

  /** When the poll of byte k is the first to time out, `flash_amdstd_wubyp`
      returns what the loop leaves, never reaching the verify: its writes
      are the unlock and bypass entry, the two writes of each of bytes
      0..k, and the bypass exit. */
  lemma BypassProgramTimeout(p: Port, d: Device, buf: seq<Byte>, addr: nat, k: nat)
    requires FirstFail(BypassEntered(p, d), BypassSteps(buf, addr, 0), d.wrdWrTime, k)
    ensures var q := Polled(BypassEntered(p, d), BypassSteps(buf, addr, 0), d.wrdWrTime, k).0;
      BypassProgram(p, d, buf, addr) == Outcome(Append(q, BypassExit(d)), 1)
    ensures BypassProgram(p, d, buf, addr).port.trace ==
      p.trace + Unlock(d) + [CmdWrite(BYPASS, d.unlock1, d.base, X8)]
      + BypassCycles(buf[..k + 1], addr, 0) + BypassExit(d)
  {
    var p0 := BypassEntered(p, d);
    BypassLoopTimeout(p0, d, buf, addr, k);
    assert p0.trace == p.trace + Unlock(d) + [CmdWrite(BYPASS, d.unlock1, d.base, X8)];
  }

  // ------------------------------------------------ write-buffer program

  function Min(a: nat, b: nat): nat
  {
    if a < b then a else b
  }

  /** The write-buffer size `1 << MaxBufWriteSize` as an unsigned value. */
  function BufferSize(maxBufWriteSize: nat): nat
  {
    Wrap32(Shl1(maxBufWriteSize))
  }

  /** The first chunk (flash.c:789-795): up to the next buffer-aligned
      address, computed in 32 bits, or a whole buffer when the address is
      already aligned; never more than the data. */
  function FirstChunk(addr: nat, size: nat, wbufsz: nat): (r: nat)
    requires wbufsz >= 1
    ensures size > 0 ==> 1 <= r <= size
    ensures r <= size
  {
    var up := RoundedUp(addr, wbufsz);
    var w := if up > addr then up - addr else wbufsz;
    if w > size then size else w
  }

  /** `(addr + wbufsz - 1) & ~(wbufsz - 1)` in 32 bits, for a power-of-two
      buffer size. */
  function RoundedUp(addr: nat, wbufsz: nat): nat
    requires wbufsz >= 1
  {
    AlignDown(Wrap32(addr + wbufsz - 1), wbufsz)
  }

  datatype Chunk = Chunk(addr: nat, len: nat)

  /** Every chunk is non-empty and lies inside lo..hi. */
  predicate Within(cs: seq<Chunk>, lo: nat, hi: nat)
  {
    forall k :: 0 <= k < |cs| ==> 1 <= cs[k].len && lo <= cs[k].addr && cs[k].addr + cs[k].len <= hi
  }

  /** The chunks the loop of flash.c:797-821 programs, starting with one of
      wsize bytes and continuing with whole buffers: each of them non-empty
      and inside the data. */
  function Chunks(addr: nat, size: nat, wsize: nat, wbufsz: nat): (r: seq<Chunk>)
    requires wbufsz >= 1
    requires size > 0 ==> 1 <= wsize <= size
    ensures size == 0 <==> r == []
    ensures |r| > 0 ==> r[0] == Chunk(addr, wsize)
    ensures Within(r, addr, addr + size)
    decreases size
  {
    if size == 0 then []
    else
      var rest := size - wsize;
      [Chunk(addr, wsize)] + Chunks(addr + wsize, rest, Min(wbufsz, rest), wbufsz)
  }

  /** The chunks tile the data: each one starts where the previous one
      ended, the last ends at addr + size, and every chunk after the first is
      a whole buffer except possibly the last. */
  lemma {:induction false} ChunksTile(addr: nat, size: nat, wsize: nat, m: nat, k: nat)
    requires m >= 1
    requires size > 0 ==> 1 <= wsize <= size
    requires k < |Chunks(addr, size, wsize, m)|
    ensures var cs := Chunks(addr, size, wsize, m);
      && (k + 1 < |cs| ==> cs[k + 1].addr == cs[k].addr + cs[k].len)
      && (k + 1 == |cs| ==> cs[k].addr + cs[k].len == addr + size)
      && (k >= 1 ==> cs[k].len <= m)
      && (1 <= k < |cs| - 1 ==> cs[k].len == m)
    decreases size
  {
    var cs := Chunks(addr, size, wsize, m);
    var rest := size - wsize;
    ChunksTail(addr, size, wsize, m);
    if |cs| >= 2 {
      var tail := Chunks(addr + wsize, rest, Min(m, rest), m);
      if k == 0 {
        assert cs[1] == tail[0];
      } else {
        assert cs[k] == tail[k - 1];
        if k + 1 < |cs| {
          assert cs[k + 1] == tail[k];
        }
        ChunksTile(addr + wsize, rest, Min(m, rest), m, k - 1);
        if k == 1 {
          ChunksTail(addr + wsize, rest, Min(m, rest), m);
        }
      }
    }
  }

  /** The chunk lies inside one buffer page of m bytes. */
  predicate OnePage(c: Chunk, m: nat)
    requires m >= 1
  {
    c.addr / m == (c.addr + c.len - 1) / m
  }

  lemma SamePage(x: nat, len: nat, m: nat, page: nat)
    requires m >= 1 && len >= 1 && page % m == 0 && page <= x && x + len <= page + m
    ensures OnePage(Chunk(x, len), m)
  {
    DivModUnique(page, m, page / m, 0);
    DivModUnique(x, m, page / m, x - page);
    DivModUnique(x + len - 1, m, page / m, x + len - 1 - page);
  }

  /** Rounding up to the buffer size without wrapping: an aligned address
      stays put, any other one moves to the next boundary. */
  lemma RoundUp(addr: nat, m: nat)
    requires m >= 1
    ensures addr % m == 0 ==> AlignDown(addr + m - 1, m) == addr
    ensures addr % m != 0 ==> AlignDown(addr + m - 1, m) == addr - addr % m + m
  {
    DivModUnique(addr, m, addr / m, addr % m);
    if addr % m == 0 {
      DivModUnique(addr + m - 1, m, addr / m, m - 1);
    } else {
      DivModUnique(addr + m - 1, m, addr / m + 1, addr % m - 1);
    }
  }

  lemma MulLess(a: int, b: int, m: int)
    requires m >= 1 && a * m < b * m
    ensures a < b
  {
  }

  /** When rounding up wraps past 2^32, the page of the address is the last
      one below 2^32. */
  lemma LastPage(addr: nat, m: nat)
    requires m >= 1 && TWO32 % m == 0 && addr < TWO32 <= addr + m - 1
    ensures addr - addr % m + m == TWO32
  {
    var q := TWO32 / m;
    DivModUnique(TWO32, m, q, 0);
    DivModUnique(addr, m, addr / m, addr % m);
    var j := addr / m;
    MulLess(j, q, m);
    assert (q - 1) * m == TWO32 - m;
    assert (j + 1) * m == addr - addr % m + m;
    MulLess(q - 1, j + 1, m);
  }

  /** The first chunk stays inside the buffer page of its address, and the
      chunk after it, if any, starts on a buffer boundary. */
  lemma FirstChunkInPage(addr: nat, size: nat, m: nat)
    requires m >= 1 && TWO32 % m == 0 && addr + size <= TWO32 && size > 0
    ensures OnePage(Chunk(addr, FirstChunk(addr, size, m)), m)
    ensures FirstChunk(addr, size, m) < size ==> (addr + FirstChunk(addr, size, m)) % m == 0
  {
    if addr + m - 1 >= TWO32 {
      FirstChunkWrap(addr, size, m);
    } else if addr % m == 0 {
      FirstChunkAligned(addr, size, m);
    } else {
      FirstChunkUnaligned(addr, size, m);
    }
  }

  /** The page of addr starts at addr - addr % m, a multiple of m, and
      the next page one buffer later. */
  lemma PageOf(addr: nat, m: nat)
    requires m >= 1
    ensures addr % m <= addr
    ensures (addr - addr % m) % m == 0 && (addr - addr % m + m) % m == 0
  {
    DivModUnique(addr, m, addr / m, addr % m);
    DivModUnique(addr - addr % m, m, addr / m, 0);
    DivModUnique(addr - addr % m + m, m, addr / m + 1, 0);
  }

  lemma NextPage(addr: nat, m: nat)
    requires m >= 1 && addr % m == 0
    ensures (addr + m) % m == 0
  {
    DivModUnique(addr, m, addr / m, 0);
    DivModUnique(addr + m, m, addr / m + 1, 0);
  }

  /** Without wrap-around the first chunk runs to the next buffer boundary,
      a whole buffer from an aligned address, and never past the data. */
  lemma FirstChunkNoWrapValue(addr: nat, size: nat, m: nat)
    requires m >= 1 && addr + m - 1 < TWO32
    ensures FirstChunk(addr, size, m) == Min(if addr % m == 0 then m else m - addr % m, size)
  {
    RoundedUpNoWrap(addr, m);
  }

  /** From an aligned address the first chunk is a whole buffer, or the
      whole data when it is shorter. */
  lemma FirstChunkAligned(addr: nat, size: nat, m: nat)
    requires m >= 1 && addr + m - 1 < TWO32 && size > 0 && addr % m == 0
    ensures OnePage(Chunk(addr, FirstChunk(addr, size, m)), m)
    ensures FirstChunk(addr, size, m) < size ==> (addr + FirstChunk(addr, size, m)) % m == 0
  {
    FirstChunkNoWrapValue(addr, size, m);
    SamePage(addr, Min(m, size), m, addr);
    PageOf(addr, m);
  }

  /** From an unaligned address the first chunk ends at the next buffer
      boundary, or with the data when that comes first. */
  lemma FirstChunkUnaligned(addr: nat, size: nat, m: nat)
    requires m >= 1 && addr + m - 1 < TWO32 && size > 0 && addr % m != 0
    ensures OnePage(Chunk(addr, FirstChunk(addr, size, m)), m)
    ensures FirstChunk(addr, size, m) < size ==> (addr + FirstChunk(addr, size, m)) % m == 0
  {
    FirstChunkNoWrapValue(addr, size, m);
    var w := Min(m - addr % m, size);
    PageOf(addr, m);
    SamePage(addr, w, m, addr - addr % m);
  }

  lemma RoundedUpNoWrap(addr: nat, m: nat)
    requires m >= 1 && addr + m - 1 < TWO32
    ensures addr % m == 0 ==> RoundedUp(addr, m) == addr
    ensures addr % m != 0 ==> RoundedUp(addr, m) == addr - addr % m + m
  {
    DivModUnique(addr + m - 1, TWO32, 0, addr + m - 1);
    RoundUp(addr, m);
  }

  lemma RoundedUpWrap(addr: nat, m: nat)
    requires 1 <= m <= TWO32 && addr < TWO32 <= addr + m - 1
    ensures RoundedUp(addr, m) < addr
  {
    DivModUnique(addr + m - 1, TWO32, 1, addr + m - 1 - TWO32);
  }

  /** When rounding up wraps, the first chunk is the whole data, which ends
      at or below 2^32, the end of the page of addr. */
  lemma FirstChunkWrap(addr: nat, size: nat, m: nat)
    requires m >= 1 && TWO32 % m == 0 && addr + size <= TWO32 <= addr + m - 1 && size > 0
    ensures FirstChunk(addr, size, m) == size
    ensures OnePage(Chunk(addr, size), m)
  {
    var page := AlignDown(addr, m);
    assert m <= TWO32 by {
      if m > TWO32 { DivModUnique(TWO32, m, 0, TWO32); }
    }
    RoundedUpWrap(addr, m);
    LastPage(addr, m);
    SamePage(addr, size, m, page);
  }

  /** Every chunk lies inside one write-buffer page, and every chunk after
      the first starts on a buffer boundary: the write-buffer command never
      spans two pages. */
  lemma {:induction false} ChunksInPages(addr: nat, size: nat, m: nat, k: nat)
    requires m >= 1 && TWO32 % m == 0 && addr + size <= TWO32
    requires k < |Chunks(addr, size, FirstChunk(addr, size, m), m)|
    ensures var c := Chunks(addr, size, FirstChunk(addr, size, m), m)[k];
      OnePage(c, m) && (k >= 1 ==> c.addr % m == 0)
  {
    FirstChunkInPage(addr, size, m);
    ChunksInPagesFrom(addr, size, FirstChunk(addr, size, m), m, k);
  }

  /** The same for any first chunk that stays in its page and, when shorter
      than the data, ends on a buffer boundary. */
  lemma ChunksInPagesFrom(addr: nat, size: nat, w: nat, m: nat, k: nat)
    requires m >= 1 && size > 0 && 1 <= w <= size
    requires OnePage(Chunk(addr, w), m) && (w < size ==> (addr + w) % m == 0)
    requires k < |Chunks(addr, size, w, m)|
    ensures var c := Chunks(addr, size, w, m)[k];
      OnePage(c, m) && (k >= 1 ==> c.addr % m == 0)
  {
    if k >= 1 {
      var cs := Chunks(addr, size, w, m);
      ChunksTail(addr, size, w, m);
      assert cs[k] == cs[1..][k - 1];
      AlignedChunksInPages(addr + w, size - w, m, k - 1);
    }
  }

  /** Past the first chunk the list goes on with whole buffers from where
      the first one ended. */
  lemma ChunksTail(addr: nat, size: nat, w: nat, m: nat)
    requires m >= 1 && size > 0 && 1 <= w <= size
    ensures var cs := Chunks(addr, size, w, m);
      && (|cs| == 1 ==> w == size)
      && (|cs| >= 2 ==> w < size && cs[1..] == Chunks(addr + w, size - w, Min(m, size - w), m))
  {
  }

  lemma {:induction false} AlignedChunksInPages(addr: nat, size: nat, m: nat, k: nat)
    requires m >= 1 && addr % m == 0 && size > 0
    requires k < |Chunks(addr, size, Min(m, size), m)|
    ensures var c := Chunks(addr, size, Min(m, size), m)[k];
      c.addr % m == 0 && OnePage(c, m)
    decreases size
  {
    if k == 0 {
      SamePage(addr, Min(m, size), m, addr);
    } else {
      ChunksTail(addr, size, Min(m, size), m);
      NextPage(addr, m);
      AlignedChunksInPages(addr + m, size - m, m, k - 1);
    }
  }

  /** The index the owning-sector search of flash.c:799-802 stops before,
      minus one: it scans from i for the first start above the address. */
  function SectorIndex(starts: seq<nat>, a: nat, i: nat): (j: nat)
    requires 1 <= i <= |starts| && starts[i - 1] <= a
    ensures i - 1 <= j < |starts| && starts[j] <= a
    ensures j + 1 < |starts| ==> a < starts[j + 1]
    ensures forall k :: i <= k <= j ==> starts[k] <= a
    decreases |starts| - i
  {
    if i == |starts| || a < starts[i] then i - 1 else SectorIndex(starts, a, i + 1)
  }

  /** The start the buffer commands go to: `start[i-1]` for the first i
      whose start lies above the address, or the last start. */
  function SectorBase(starts: seq<nat>, a: nat): nat
    requires |starts| >= 1 && starts[0] <= a
  {
    starts[SectorIndex(starts, a, 1)]
  }

  /** With ascending starts, the owning sector is the last one whose start
      is at or below the address. */
  lemma OwningSector(starts: seq<nat>, a: nat)
    requires |starts| >= 1 && starts[0] <= a
    requires forall x, y :: 0 <= x < y < |starts| ==> starts[x] < starts[y]
    ensures SectorBase(starts, a) <= a
    ensures forall k :: 0 <= k < |starts| && starts[k] <= a ==> starts[k] <= SectorBase(starts, a)
    ensures forall k :: 0 <= k < |starts| && starts[k] <= a ==> k <= SectorIndex(starts, a, 1)
  {
  }

  /** The data writes of one chunk, byte k at a + k. */
  function DataWrites(data: seq<Byte>, a: nat): (r: seq<BusWrite>)
    ensures |r| == |data|
  {
    if data == [] then [] else [BusWrite(a, data[0])] + DataWrites(data[1..], a + 1)
  }

  /** The data writes put byte k of the chunk at a + k, in order. */
  lemma {:induction false} DataWritesAt(data: seq<Byte>, a: nat, k: nat)
    requires k < |data|
    ensures DataWrites(data, a)[k] == BusWrite(a + k, data[k])
  {
    if k > 0 {
      DataWritesAt(data[1..], a + 1, k - 1);
    }
  }

  /** One write-buffer cycle: unlock, 25h and the count minus one (as a
      byte) to the sector start, the data, and 29h to the sector start. */
  function BufferCycle(d: Device, saddr: nat, data: seq<Byte>, a: nat): seq<BusWrite>
    requires |data| >= 1
  {
    Unlock(d) + [BusWrite(saddr, WRITE_TO_BUFFER), BusWrite(saddr, (|data| - 1) % 0x100)]
      + DataWrites(data, a) + [BusWrite(saddr, BUFFER_CONFIRM)]
  }

  /** The write-buffer cycle of chunk c of buf (placed at addr), sent to
      the chunk's owning sector. */
  function ChunkCycle(d: Device, starts: seq<nat>, buf: seq<Byte>, addr: nat, c: Chunk): seq<BusWrite>
    requires |starts| >= 1 && starts[0] <= addr
    requires 1 <= c.len && addr <= c.addr && c.addr + c.len <= addr + |buf|
  {
    BufferCycle(d, SectorBase(starts, c.addr), buf[c.addr - addr..c.addr - addr + c.len], c.addr)
  }

  /** One chunk: its write-buffer cycle, then a poll of its last byte
      against the buffer-program budget. On a chip that holds the data the
      first read matches. */
  function ChunkPoll(p: Port, d: Device, starts: seq<nat>, buf: seq<Byte>, addr: nat, c: Chunk): (r: (Port, bool))
    requires |starts| >= 1 && starts[0] <= addr
    requires 1 <= c.len && addr <= c.addr && c.addr + c.len <= addr + |buf|
    ensures Extends(p, r.0)
    ensures Holds(p.chip, addr, buf) ==>
      r == (Append(p, ChunkCycle(d, starts, buf, addr, c)).(nreads := p.nreads + 1), true)
  {
    var p1 := Append(p, ChunkCycle(d, starts, buf, addr, c));
    var last := buf[c.addr - addr + c.len - 1];
    StateExtends(p1, c.addr + c.len - 1, last, d.bufWrTime);
    ChunkPollHolds(p1, addr, buf, c, d.bufWrTime);
    State(p1, c.addr + c.len - 1, last, d.bufWrTime)
  }

  lemma ChunkPollHolds(p: Port, addr: nat, buf: seq<Byte>, c: Chunk, timeout: int)
    requires 1 <= c.len && addr <= c.addr && c.addr + c.len <= addr + |buf|
    ensures Holds(p.chip, addr, buf) ==>
      State(p, c.addr + c.len - 1, buf[c.addr - addr + c.len - 1], timeout) == (p.(nreads := p.nreads + 1), true)
  {
    if Holds(p.chip, addr, buf) {
      assert Peek(p, c.addr + c.len - 1, 0) == buf[c.addr - addr + c.len - 1];
      FirstReadMatches(p, c.addr + c.len - 1, buf[c.addr - addr + c.len - 1], timeout);
    }
  }

  /** The write-buffer loop over the chunks still to program. The chunk
      sizes do not depend on the chip, so the loop takes them from Chunks. */
  function BufLoop(p: Port, d: Device, starts: seq<nat>, buf: seq<Byte>, addr: nat, cs: seq<Chunk>): (r: Outcome)
    requires |starts| >= 1 && starts[0] <= addr
    requires Within(cs, addr, addr + |buf|)
    ensures r.rc == 0 || r.rc == 1
    ensures Extends(p, r.port)
    ensures r.rc == 1 ==> EndsWithReset(r.port, d)
    decreases |cs|
  {
    if cs == [] then Outcome(p, 0)
    else
      var (p2, ok) := ChunkPoll(p, d, starts, buf, addr, cs[0]);
      if !ok then Outcome(Append(p2, [ResetCmd(d)]), 1)
      else BufLoop(p2, d, starts, buf, addr, cs[1..])
  }

  /** `flash_amdstd_wbuff`: the chunk loop, then verify over the whole
      range, reached only when every chunk's poll succeeded. The source needs
      a buffer size whose shift is not 0 (otherwise its loop never ends) and
      a start address inside the sector table. */
  function BufferProgram(p: Port, d: Device, starts: seq<nat>, buf: seq<Byte>, addr: nat): (r: Outcome)
    requires BufferSize(d.ident.maxBufWriteSize) >= 1
    requires |starts| >= 1 && starts[0] <= addr
    ensures r.rc == 0 || r.rc == 1
    ensures Extends(p, r.port)
    ensures r.rc == 1 ==> EndsWithReset(r.port, d)
  {
    var l := BufLoop(p, d, starts, buf, addr, BufChunks(d, buf, addr));
    if l.rc != 0 then l else Verify(l.port, d, buf, addr, 0)
  }

  /** The write-buffer cycles of a run of chunks of buf (placed at addr). */
  function BufferCycles(d: Device, starts: seq<nat>, buf: seq<Byte>, addr: nat, cs: seq<Chunk>): seq<BusWrite>
    requires |starts| >= 1 && starts[0] <= addr
    requires Within(cs, addr, addr + |buf|)
  {
    if cs == [] then [] else ChunkCycle(d, starts, buf, addr, cs[0]) + BufferCycles(d, starts, buf, addr, cs[1..])
  }

  lemma WithinSplit(cs: seq<Chunk>, lo: nat, hi: nat)
    requires Within(cs, lo, hi) && cs != []
    ensures 1 <= cs[0].len && lo <= cs[0].addr && cs[0].addr + cs[0].len <= hi
    ensures Within(cs[1..], lo, hi)
  {
    assert forall k :: 0 <= k < |cs| - 1 ==> cs[1..][k] == cs[k + 1];
  }

  /** Writing a, then b, and reading once then n times is writing a + b and
      reading n + 1 times. */
  lemma AppendTwice(p: Port, a: seq<BusWrite>, b: seq<BusWrite>, n: nat)
    ensures Append(p, a).(nreads := p.nreads + 1).(trace := p.trace + a + b, nreads := p.nreads + 1 + n)
         == p.(trace := p.trace + (a + b), nreads := p.nreads + (n + 1))
  {
    assert p.trace + a + b == p.trace + (a + b);
  }

  lemma {:induction false} BufLoopHolds(p: Port, d: Device, starts: seq<nat>, buf: seq<Byte>, addr: nat, cs: seq<Chunk>)
    requires |starts| >= 1 && starts[0] <= addr
    requires Within(cs, addr, addr + |buf|)
    requires Holds(p.chip, addr, buf)
    ensures BufLoop(p, d, starts, buf, addr, cs) ==
      Outcome(p.(trace := p.trace + BufferCycles(d, starts, buf, addr, cs), nreads := p.nreads + |cs|), 0)
    decreases |cs|
  {
    if cs != [] {
      WithinSplit(cs, addr, addr + |buf|);
      var p1 := Append(p, ChunkCycle(d, starts, buf, addr, cs[0])).(nreads := p.nreads + 1);
      BufLoopHolds(p1, d, starts, buf, addr, cs[1..]);
      BufLoopCons(p, d, starts, buf, addr, cs);
    }
  }

  /** The inductive step: the first chunk's cycle and poll read, then the
      rest of the loop as the hypothesis has it. */
  lemma BufLoopCons(p: Port, d: Device, starts: seq<nat>, buf: seq<Byte>, addr: nat, cs: seq<Chunk>)
    requires |starts| >= 1 && starts[0] <= addr
    requires Within(cs, addr, addr + |buf|) && cs != []
    requires Holds(p.chip, addr, buf)
    requires var p1 := Append(p, ChunkCycle(d, starts, buf, addr, cs[0])).(nreads := p.nreads + 1);
      BufLoop(p1, d, starts, buf, addr, cs[1..]) ==
      Outcome(p1.(trace := p1.trace + BufferCycles(d, starts, buf, addr, cs[1..]), nreads := p1.nreads + |cs[1..]|), 0)
    ensures BufLoop(p, d, starts, buf, addr, cs) ==
      Outcome(p.(trace := p.trace + BufferCycles(d, starts, buf, addr, cs), nreads := p.nreads + |cs|), 0)
  {
    WithinSplit(cs, addr, addr + |buf|);
    var cycle := ChunkCycle(d, starts, buf, addr, cs[0]);
    var rest := BufferCycles(d, starts, buf, addr, cs[1..]);
    var p1 := Append(p, cycle).(nreads := p.nreads + 1);
    assert BufLoop(p, d, starts, buf, addr, cs) == BufLoop(p1, d, starts, buf, addr, cs[1..]);
    AppendTwice(p, cycle, rest, |cs[1..]|);
  }

  /** On a chip that holds the data, buffer program succeeds; its writes
      are exactly one write-buffer cycle per chunk, in order, each sent to
      its owning sector; it makes one poll read per chunk and one verify
      read per byte. */
  lemma BufferProgramHolds(p: Port, d: Device, starts: seq<nat>, buf: seq<Byte>, addr: nat)
    requires BufferSize(d.ident.maxBufWriteSize) >= 1
    requires |starts| >= 1 && starts[0] <= addr
    requires Holds(p.chip, addr, buf)
    ensures var cs := BufChunks(d, buf, addr);
      BufferProgram(p, d, starts, buf, addr) ==
      Outcome(p.(trace := p.trace + BufferCycles(d, starts, buf, addr, cs), nreads := p.nreads + |cs| + |buf|), 0)
  {
    var cs := BufChunks(d, buf, addr);
    BufLoopHolds(p, d, starts, buf, addr, cs);
    VerifyHolds(BufLoop(p, d, starts, buf, addr, cs).port, d, buf, addr, 0);
  }

  /** One chunk as a step: its write-buffer cycle, then a poll of its last
      byte. */
  function ChunkStep(d: Device, starts: seq<nat>, buf: seq<Byte>, addr: nat, c: Chunk): Step
    requires |starts| >= 1 && starts[0] <= addr
    requires 1 <= c.len && addr <= c.addr && c.addr + c.len <= addr + |buf|
  {
    Step(ChunkCycle(d, starts, buf, addr, c), c.addr + c.len - 1, buf[c.addr - addr + c.len - 1])
  }

  lemma ChunkPollIsStep(p: Port, d: Device, starts: seq<nat>, buf: seq<Byte>, addr: nat, c: Chunk)
    requires |starts| >= 1 && starts[0] <= addr
    requires 1 <= c.len && addr <= c.addr && c.addr + c.len <= addr + |buf|
    ensures var s := ChunkStep(d, starts, buf, addr, c);
      ChunkPoll(p, d, starts, buf, addr, c) == State(p.(trace := p.trace + s.writes), s.addr, s.target, d.bufWrTime)
  {
  }

  /** The steps of the write-buffer loop over a run of chunks. */
  function BufSteps(d: Device, starts: seq<nat>, buf: seq<Byte>, addr: nat, cs: seq<Chunk>): (ss: seq<Step>)
    requires |starts| >= 1 && starts[0] <= addr
    requires Within(cs, addr, addr + |buf|)
    ensures |ss| == |cs|
    ensures forall k :: 0 <= k < |cs| ==> ss[k] == ChunkStep(d, starts, buf, addr, cs[k])
  {
    if cs == [] then []
    else
      WithinSplit(cs, addr, addr + |buf|);
      var rest := BufSteps(d, starts, buf, addr, cs[1..]);
      assert forall k :: 1 <= k < |cs| ==> cs[k] == cs[1..][k - 1];
      [ChunkStep(d, starts, buf, addr, cs[0])] + rest
  }

  /** The write-buffer loop is the step run over its chunks' steps, with the
      reset as the tail of a failed poll. */
  lemma {:induction false} BufLoopRuns(p: Port, d: Device, starts: seq<nat>, buf: seq<Byte>, addr: nat, cs: seq<Chunk>)
    requires |starts| >= 1 && starts[0] <= addr
    requires Within(cs, addr, addr + |buf|)
    ensures var r := RunSteps(p, BufSteps(d, starts, buf, addr, cs), d.bufWrTime, [ResetCmd(d)]);
      BufLoop(p, d, starts, buf, addr, cs) == Outcome(r.0, if r.1 then 0 else 1)
    decreases |cs|
  {
    if cs != [] {
      WithinSplit(cs, addr, addr + |buf|);
      BufLoopRuns(ChunkPoll(p, d, starts, buf, addr, cs[0]).0, d, starts, buf, addr, cs[1..]);
      BufLoopRunsCons(p, d, starts, buf, addr, cs);
    }
  }

  /** The inductive step: the first chunk's poll is the first step's. */
  lemma BufLoopRunsCons(p: Port, d: Device, starts: seq<nat>, buf: seq<Byte>, addr: nat, cs: seq<Chunk>)
    requires |starts| >= 1 && starts[0] <= addr
    requires Within(cs, addr, addr + |buf|) && cs != []
    requires 1 <= cs[0].len && addr <= cs[0].addr && cs[0].addr + cs[0].len <= addr + |buf|
    requires Within(cs[1..], addr, addr + |buf|)
    requires var q := ChunkPoll(p, d, starts, buf, addr, cs[0]).0;
      var r := RunSteps(q, BufSteps(d, starts, buf, addr, cs[1..]), d.bufWrTime, [ResetCmd(d)]);
      BufLoop(q, d, starts, buf, addr, cs[1..]) == Outcome(r.0, if r.1 then 0 else 1)
    ensures var r := RunSteps(p, BufSteps(d, starts, buf, addr, cs), d.bufWrTime, [ResetCmd(d)]);
      BufLoop(p, d, starts, buf, addr, cs) == Outcome(r.0, if r.1 then 0 else 1)
  {
    var ss := BufSteps(d, starts, buf, addr, cs);
    var tail := [ResetCmd(d)];
    assert ss[1..] == BufSteps(d, starts, buf, addr, cs[1..]);
    var s := ChunkStep(d, starts, buf, addr, cs[0]);
    assert ss[0] == s;
    var (q, ok) := ChunkPoll(p, d, starts, buf, addr, cs[0]);
    ChunkPollIsStep(p, d, starts, buf, addr, cs[0]);
    if ok {
      assert BufLoop(p, d, starts, buf, addr, cs) == BufLoop(q, d, starts, buf, addr, cs[1..]);
      assert RunSteps(p, ss, d.bufWrTime, tail) == RunSteps(q, ss[1..], d.bufWrTime, tail);
    } else {
      assert BufLoop(p, d, starts, buf, addr, cs) == Outcome(Append(q, tail), 1);
      assert RunSteps(p, ss, d.bufWrTime, tail) == (q.(trace := q.trace + tail), false);
    }
  }

  lemma {:induction false} BufStepsWrites(d: Device, starts: seq<nat>, buf: seq<Byte>, addr: nat, cs: seq<Chunk>)
    requires |starts| >= 1 && starts[0] <= addr
    requires Within(cs, addr, addr + |buf|)
    ensures Flat(BufSteps(d, starts, buf, addr, cs)) == BufferCycles(d, starts, buf, addr, cs)
    decreases |cs|
  {
    if cs != [] {
      WithinSplit(cs, addr, addr + |buf|);
      BufStepsWrites(d, starts, buf, addr, cs[1..]);
      assert BufSteps(d, starts, buf, addr, cs)[1..] == BufSteps(d, starts, buf, addr, cs[1..]);
    }
  }

  lemma BufStepsPrefix(d: Device, starts: seq<nat>, buf: seq<Byte>, addr: nat, cs: seq<Chunk>, n: nat)
    requires |starts| >= 1 && starts[0] <= addr
    requires Within(cs, addr, addr + |buf|) && n <= |cs|
    ensures Within(cs[..n], addr, addr + |buf|)
    ensures BufSteps(d, starts, buf, addr, cs)[..n] == BufSteps(d, starts, buf, addr, cs[..n])
  {
    assert forall k :: 0 <= k < n ==> cs[..n][k] == cs[k];
  }

  /** The chunks buffer program writes. */
  function BufChunks(d: Device, buf: seq<Byte>, addr: nat): (cs: seq<Chunk>)
    requires BufferSize(d.ident.maxBufWriteSize) >= 1
    ensures Within(cs, addr, addr + |buf|)
  {
    var m := BufferSize(d.ident.maxBufWriteSize);
    Chunks(addr, |buf|, FirstChunk(addr, |buf|, m), m)
  }

  /** `flash_amdstd_wbuff` returns 0 exactly when every chunk's poll
      succeeds and the verify after the loop returns 0; then the result is
      that verify's. */
  lemma BufferProgramOutcome(p: Port, d: Device, starts: seq<nat>, buf: seq<Byte>, addr: nat)
    requires BufferSize(d.ident.maxBufWriteSize) >= 1
    requires |starts| >= 1 && starts[0] <= addr
    ensures var ss := BufSteps(d, starts, buf, addr, BufChunks(d, buf, addr));
      var v := Verify(Before(p, ss, d.bufWrTime, |ss|), d, buf, addr, 0);
      && (BufferProgram(p, d, starts, buf, addr).rc == 0 <==> AllOk(p, ss, d.bufWrTime) && v.rc == 0)
      && (AllOk(p, ss, d.bufWrTime) ==> BufferProgram(p, d, starts, buf, addr) == v)
  {
    var cs := BufChunks(d, buf, addr);
    var ss := BufSteps(d, starts, buf, addr, cs);
    BufLoopRuns(p, d, starts, buf, addr, cs);
    RunOk(p, ss, d.bufWrTime, [ResetCmd(d)]);
    if AllOk(p, ss, d.bufWrTime) {
      RunDone(p, ss, d.bufWrTime, [ResetCmd(d)]);
    }
  }

  /** When the poll of chunk k is the first to time out, the chunk loop
      stops right there with a reset and 1: its writes are the write-buffer
      cycles of chunks 0..k and the reset. */
  lemma BufLoopTimeout(p: Port, d: Device, starts: seq<nat>, buf: seq<Byte>, addr: nat, cs: seq<Chunk>, k: nat)
    requires |starts| >= 1 && starts[0] <= addr
    requires Within(cs, addr, addr + |buf|)
    requires FirstFail(p, BufSteps(d, starts, buf, addr, cs), d.bufWrTime, k)
    ensures var q := Polled(p, BufSteps(d, starts, buf, addr, cs), d.bufWrTime, k).0;
      BufLoop(p, d, starts, buf, addr, cs) == Outcome(Append(q, [ResetCmd(d)]), 1)
    ensures Within(cs[..k + 1], addr, addr + |buf|)
    ensures BufLoop(p, d, starts, buf, addr, cs).port.trace ==
      p.trace + BufferCycles(d, starts, buf, addr, cs[..k + 1]) + [ResetCmd(d)]
  {
    var ss := BufSteps(d, starts, buf, addr, cs);
    BufLoopRuns(p, d, starts, buf, addr, cs);
    RunFails(p, ss, d.bufWrTime, [ResetCmd(d)], k);
    FailTrace(p, ss, d.bufWrTime, [ResetCmd(d)], k);
    BufStepsPrefix(d, starts, buf, addr, cs, k + 1);
    BufStepsWrites(d, starts, buf, addr, cs[..k + 1]);
  }

  /** When the poll of chunk k is the first to time out, `flash_amdstd_wbuff`
      returns what the chunk loop leaves: a reset and 1, never reaching the
      verify. */
  lemma BufferProgramTimeout(p: Port, d: Device, starts: seq<nat>, buf: seq<Byte>, addr: nat, k: nat)
    requires BufferSize(d.ident.maxBufWriteSize) >= 1
    requires |starts| >= 1 && starts[0] <= addr
    requires FirstFail(p, BufSteps(d, starts, buf, addr, BufChunks(d, buf, addr)), d.bufWrTime, k)
    ensures var q := Polled(p, BufSteps(d, starts, buf, addr, BufChunks(d, buf, addr)), d.bufWrTime, k).0;
      BufferProgram(p, d, starts, buf, addr) == Outcome(Append(q, [ResetCmd(d)]), 1)
    ensures BufferProgram(p, d, starts, buf, addr) == BufLoop(p, d, starts, buf, addr, BufChunks(d, buf, addr))
  {
    BufLoopTimeout(p, d, starts, buf, addr, BufChunks(d, buf, addr), k);
  }

  // ------------------------------------------------------------ dispatch

  /** `write_buff` (flash.c:268-271): the routine setup chose for the part.
      The source calls through an unset pointer when setup chose none. */
  function WriteBuff(p: Port, f: Flash, buf: seq<Byte>, addr: nat): (r: Outcome)
    requires f.dev.write.Some?
    requires f.dev.write.value == BufferWrite ==>
      BufferSize(f.dev.ident.maxBufWriteSize) >= 1 && |f.starts| >= 1 && f.starts[0] <= addr
    ensures r.rc == 0 || r.rc == 1
    ensures Extends(p, r.port)
    ensures r.rc == 1 ==> EndsWithReset(r.port, f.dev)
    ensures f.dev.write.value == WordWrite ==> r == ByteProgram(p, f.dev, buf, addr)
    ensures f.dev.write.value == BypassWrite ==> r == BypassProgram(p, f.dev, buf, addr)
    ensures f.dev.write.value == BufferWrite ==> r == BufferProgram(p, f.dev, f.starts, buf, addr)
  {
    match f.dev.write.value
    case WordWrite => ByteProgram(p, f.dev, buf, addr)
    case BypassWrite => BypassProgram(p, f.dev, buf, addr)
    case BufferWrite => BufferProgram(p, f.dev, f.starts, buf, addr)
  }

  /** Whichever routine was chosen, writing data the chip then holds
      succeeds and reads every byte back once more after programming it. */
  lemma WriteBuffHolds(p: Port, f: Flash, buf: seq<Byte>, addr: nat)
    requires f.dev.write.Some?
    requires f.dev.write.value == BufferWrite ==>
      BufferSize(f.dev.ident.maxBufWriteSize) >= 1 && |f.starts| >= 1 && f.starts[0] <= addr
    requires Holds(p.chip, addr, buf)
    ensures WriteBuff(p, f, buf, addr).rc == 0
    ensures WriteBuff(p, f, buf, addr).port.nreads >= p.nreads + |buf|
  {
    match f.dev.write.value
    case WordWrite => ByteProgramHolds(p, f.dev, buf, addr);
    case BypassWrite => BypassProgramHolds(p, f.dev, buf, addr);
    case BufferWrite => BufferProgramHolds(p, f.dev, f.starts, buf, addr);
  }
}
