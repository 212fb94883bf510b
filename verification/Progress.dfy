/** Liveness and cycle accounting of the pipelined core. */
module Progress {
  import opened Words
  import opened MachineDefs
  import opened CsrFunctions
  import opened InstructionSet
  import opened Stages
  import opened Refinement

  // ---------------------------------------------------------------- runs compose

  lemma {:induction false} RunComposes(env: Env, p: PipeState, a: nat, b: nat)
    ensures PipeRun(env, p, a + b) == PipeRun(env, PipeRun(env, p, a), b)
    ensures Passed(env, p, a + b) == Passed(env, p, a) + Passed(env, PipeRun(env, p, a), b)
    decreases b
  {
    hide PipeStep;
    if b > 0 {
      RunComposes(env, p, a, b - 1);
      assert a + b - 1 == a + (b - 1);
    }
  }

  // ---------------------------------------------------------------- progress

  /** Cycles until the oldest instruction in flight, or the next one to be fetched, passes the memory stage. */
  function Distance(p: PipeState): nat {
    if p.exMem.isValid then 1 else if p.idEx.isValid then 2 else if p.ifId.isValid then 3 else 4
  }

  lemma NoStallBehindBubbles(env: Env, p: PipeState)
    requires InertExecute(p.exMem) && InertDecode(p.idEx)
    ensures !Stalls(env, p)
  {
    hide MemoryStage, Decode, Execute;
    InertMemory(env, p.memory, p.control, p.exMem);
    ExecuteCopies(env, p.idEx);
  }

  /** While nothing passes the memory stage, the next instruction comes strictly closer to it. */
  lemma BubbleAdvances(env: Env, p: PipeState)
    requires Structure(env, p) && !p.exMem.isValid
    ensures Distance(PipeStep(env, p)) < Distance(p)
  {
    hide MemoryStage, Decode, Execute, Writeback, DataHazards, PipeStep, Stalls, Static, MaskOk;
    var p' := QuietNext(env, p);
    InertMemory(env, p.memory, p.control, p.exMem);
    QuietStep(env, p);
    ExecuteCopies(env, p.idEx);
    DecodeCopies(env, p'.regs, p'.control, p.ifId);
    HazardsKeepInstruction(env.hazardUnit, Out(env, p).interstage, NextExecute(env, p), NextDecode(env, p));
    if !p.idEx.isValid {
      NoStallBehindBubbles(env, p);
      if !p.ifId.isValid {
        FlushedFetchDecodesInert(env, p'.regs, p'.control);
      }
    }
  }

  /** Within four cycles some instruction passes the memory stage. */
  lemma {:induction false} PassesSoon(env: Env, p: PipeState) returns (k: nat)
    requires Structure(env, p)
    ensures k < Distance(p)
    ensures PipeRun(env, p, k).exMem.isValid && Passed(env, p, k) == 0
    decreases Distance(p)
  {
    hide PipeStep, Structure;
    if p.exMem.isValid {
      k := 0;
    } else {
      var q := PipeStep(env, p);
      StructureStep(env, p);
      BubbleAdvances(env, p);
      var j := PassesSoon(env, q);
      k := j + 1;
      assert PipeRun(env, p, 1) == q by { assert PipeRun(env, p, 0) == p; }
      assert Passed(env, p, 1) == 0 by { assert PipeRun(env, p, 0) == p; }
      RunComposes(env, p, 1, j);
    }
  }

  /** From every state the pipeline reaches, one more instruction passes within four cycles. */
  lemma NextPass(env: Env, p: PipeState) returns (cycles: nat)
    requires Structure(env, p)
    ensures 1 <= cycles <= 4 && Passed(env, p, cycles) == 1
  {
    hide *;
    var k := PassesSoon(env, p);
    DistanceBound(p);
    cycles := k + 1;
    PassedNext(env, p, k);
  }

  lemma PassedNext(env: Env, p: PipeState, k: nat)
    ensures Passed(env, p, k + 1) == Passed(env, p, k) + if PipeRun(env, p, k).exMem.isValid then 1 else 0
  {
    hide PipeRun;
  }

  lemma PassedNone(env: Env, p: PipeState)
    ensures Passed(env, p, 0) == 0
  {
    hide PipeRun;
  }

  /** Some cycle count at most four times larger matches any number of instructions. */
  lemma {:induction false} EveryStepMatched(env: Env, p: PipeState, n: nat) returns (cycles: nat)
    requires Structure(env, p)
    ensures cycles <= 4 * n && Passed(env, p, cycles) == n
  {
    hide *;
    if n == 0 {
      cycles := 0;
      PassedNone(env, p);
    } else {
      var c := EveryStepMatched(env, p, n - 1);
      StructureRun(env, p, c);
      var k := NextPass(env, PipeRun(env, p, c));
      RunComposes(env, p, c, k);
      cycles := c + k;
    }
  }

  /** The pipelined core reaches every state of the single-cycle core, in at most four cycles an instruction. */
  lemma EveryStateReached(env: Env, s: ArchState, n: nat) returns (cycles: nat)
    requires Covered(env) && MaskOk(env, s.control)
    ensures cycles <= 4 * n
    ensures Abs(PipeRun(env, PipeReset(s), cycles)) == SingleRun(env, s, 0, n)
  {
    hide *;
    ResetInv(env, s);
    InvParts(env, PipeReset(s));
    cycles := EveryStepMatched(env, PipeReset(s), n);
    PipelinedRefinesSingle(env, s, cycles);
  }

  lemma DistanceBound(p: PipeState)
    ensures 1 <= Distance(p) <= 4
  {
  }

  /** No run passes fewer than one instruction every four cycles. */
  lemma {:induction false} Throughput(env: Env, p: PipeState, cycles: nat)
    requires Structure(env, p)
    ensures 4 * Passed(env, p, cycles) + 3 >= cycles
    decreases cycles
  {
    hide *;
    if cycles >= 4 {
      var k := NextPass(env, p);
      StructureRun(env, p, k);
      RunComposes(env, p, k, cycles - k);
      Throughput(env, PipeRun(env, p, k), cycles - k);
    }
  }

  // ---------------------------------------------------------------- stalls

  predicate Stalled(env: Env, p: PipeState) {
    PipeStep(env, p).stallCount > p.stallCount
  }

  lemma StallLeavesBubble(env: Env, p: PipeState)
    requires Stalled(env, p)
    ensures !Redirects(Out(env, p).interstage) && Stalls(env, p) && PipeStep(env, p).idEx == FLUSHED_DECODE
    ensures PipeStep(env, p).exMem == NextExecute(env, p)
  {
    hide MemoryStage, Decode, Execute, Writeback, DataHazards, PipeStep, HandleException, Fetch, StallRequested;
    var w := Out(env, p).interstage;
    if w.excause != NoException {
      ExceptionDrains(env, p);
    } else if Redirects(w) {
      RedirectDrains(env, p);
    } else {
      QuietStep(env, p);
    }
  }

  lemma FlushedExecutes(env: Env)
    ensures InertExecute(Execute(env, FLUSHED_DECODE))
  {
    ExecuteCopies(env, FLUSHED_DECODE);
  }

  /** A stall under forwarding is over after one cycle. */
  lemma ForwardingStallsOnce(env: Env, p: PipeState)
    requires env.hazardUnit == HuStallForward && Stalled(env, p)
    ensures !Stalled(env, PipeStep(env, p))
  {
    hide MemoryStage, Decode, Execute, Writeback, PipeStep, Stalled;
    var q := PipeStep(env, p);
    StallLeavesBubble(env, p);
    if Stalled(env, q) {
      StallLeavesBubble(env, q);
      FlushedExecutes(env);
    }
  }

  /** Without forwarding a stall lasts two cycles at most. */
  lemma StallsTwice(env: Env, p: PipeState)
    requires env.hazardUnit == HuStall && Stalled(env, p) && Stalled(env, PipeStep(env, p))
    ensures !Stalled(env, PipeStep(env, PipeStep(env, p)))
  {
    hide MemoryStage, Decode, Execute, Writeback, PipeStep, Stalled;
    var q := PipeStep(env, p);
    var r := PipeStep(env, q);
    StallLeavesBubble(env, p);
    StallLeavesBubble(env, q);
    if Stalled(env, r) {
      StallLeavesBubble(env, r);
      FlushedExecutes(env);
      InertMemory(env, r.memory, r.control, r.exMem);
    }
  }

  // ---------------------------------------------------------------- cycle accounting

  /** How many steps of a run flushed the pipeline: mispredictions, CSR writes, trap returns and exceptions. */
  function Flushes(env: Env, p: PipeState, cycles: nat): nat {
    if cycles == 0 then 0
    else Flushes(env, p, cycles - 1) + if Redirects(Out(env, PipeRun(env, p, cycles - 1)).interstage) then 1 else 0
  }

  function Bubble(valid: bool): nat {
    if valid then 0 else 1
  }

  /** Empty slots in flight ahead of the oldest exception. */
  function BubblesInFlight(p: PipeState): nat {
    Bubble(p.exMem.isValid)
    + if p.exMem.excause != NoException then 0
      else Bubble(p.idEx.isValid) + if p.idEx.excause != NoException then 0 else Bubble(p.ifId.isValid)
  }

  lemma QuietBubbles(env: Env, p: PipeState)
    requires Structure(env, p) && !Redirects(Out(env, p).interstage)
    ensures
      var p' := PipeStep(env, p);
      BubblesInFlight(p') + Bubble(p.exMem.isValid) + p.stallCount <= BubblesInFlight(p) + p'.stallCount
  {
    hide MemoryStage, Decode, Execute, Writeback, DataHazards, PipeStep, Static, MaskOk;
    var p' := QuietNext(env, p);
    QuietStep(env, p);
    ExecuteCopies(env, p.idEx);
    DecodeCopies(env, p'.regs, p'.control, p.ifId);
    HazardsKeepInstruction(env.hazardUnit, Out(env, p).interstage, NextExecute(env, p), NextDecode(env, p));
    NoRedirectNoException(env, p.memory, p.control, p.exMem);
    if Stalls(env, p) {
      StallNeedsInstruction(env, p);
    }
  }

  lemma DrainingBubbles(env: Env, p: PipeState)
    requires Structure(env, p) && Redirects(Out(env, p).interstage)
    ensures BubblesInFlight(PipeStep(env, p)) == 3 && p.exMem.isValid && PipeStep(env, p).stallCount == p.stallCount
  {
    hide MemoryStage, PipeStep, HandleException, Writeback, Structure;
    DrainingStep(env, p);
    if Out(env, p).interstage.excause != NoException {
      ExceptionDrains(env, p);
    } else {
      RedirectDrains(env, p);
    }
  }

  lemma {:induction false} Accounting(env: Env, p: PipeState, cycles: nat)
    requires Structure(env, p) && p.stallCount == 0
    ensures cycles + BubblesInFlight(PipeRun(env, p, cycles))
            <= Passed(env, p, cycles) + PipeRun(env, p, cycles).stallCount + 3 * (Flushes(env, p, cycles) + 1)
  {
    hide PipeStep, Structure, MemoryStage, Out, BubblesInFlight, Redirects;
    if cycles == 0 {
      BubbleBound(p);
    } else {
      var q := PipeRun(env, p, cycles - 1);
      Accounting(env, p, cycles - 1);
      StructureRun(env, p, cycles - 1);
      if Redirects(Out(env, q).interstage) {
        DrainingBubbles(env, q);
      } else {
        QuietBubbles(env, q);
      }
    }
  }

  lemma BubbleBound(p: PipeState)
    ensures BubblesInFlight(p) <= 3
  {
  }

  /** Every cycle is an instruction, a stall or one of three lost to the initial fill or to a flush. */
  lemma CycleAccounting(env: Env, s: ArchState, cycles: nat)
    requires MaskOk(env, s.control)
    ensures
      var p := PipeReset(s);
      Passed(env, p, cycles) <= cycles
      && cycles <= Passed(env, p, cycles) + PipeRun(env, p, cycles).stallCount + 3 * (Flushes(env, p, cycles) + 1)
  {
    hide Inv, MaskOk, BubblesInFlight, Abs;
    ResetInv(env, s);
    InvParts(env, PipeReset(s));
    Accounting(env, PipeReset(s), cycles);
    PassedAtMost(env, PipeReset(s), cycles);
  }

  lemma {:induction false} PassedAtMost(env: Env, p: PipeState, cycles: nat)
    ensures Passed(env, p, cycles) <= cycles
  {
    hide PipeStep;
    if cycles > 0 {
      PassedAtMost(env, p, cycles - 1);
    }
  }
}
