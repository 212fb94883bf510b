/** Safety of load-reserved and store-conditional over whole runs. */
module Reservation {
  import opened Words
  import opened MachineDefs
  import opened CsrFunctions
  import opened InstructionSet
  import opened Stages
  import opened Refinement
  import opened Spans

  /** The instruction the single-cycle core executes in state `s`, and what its memory stage makes of it. */
  function Executed(env: Env, s: ArchState): ExecuteInterstage {
    SingleExecute(env, s, ZERO)
  }

  function Outcome(env: Env, s: ArchState): MemoryOutcome {
    MemoryStage(env, s.memory, s.control, Executed(env, s))
  }

  /** An exception that is delivered; an illegal instruction ends the simulation and a breakpoint may only stop it. */
  predicate Delivers(env: Env, s: ArchState) {
    var cause := Outcome(env, s).interstage.excause;
    cause != NoException && cause != InsnIllegal && !(cause == HwBreak && env.stopOn(HwBreak))
  }

  predicate Completes(env: Env, s: ArchState) {
    Outcome(env, s).interstage.excause == NoException
  }

  predicate Reserves(env: Env, s: ArchState) {
    Completes(env, s) && Executed(env, s).signals.memctl.LoadReserved?
  }

  predicate StoresConditionally(env: Env, s: ArchState) {
    Completes(env, s) && Executed(env, s).signals.memctl.StoreConditional?
  }

  /** The bytes the instruction in state `s` reserves or needs reserved, and their range. */
  function AccessSpan(env: Env, s: ArchState): (span: Span)
    ensures span.Valid()
  {
    var e := Executed(env, s);
    SpanAt(e.aluVal, e.signals.memctl == LoadReserved(true) || e.signals.memctl == StoreConditional(true))
  }

  function AccessRange(env: Env, s: ArchState): AddressRange {
    AccessSpan(env, s).Range()
  }

  /** Store-conditional, trap return, SFENCE.VMA and delivered traps drop the reservation. */
  predicate Drops(env: Env, s: ArchState) {
    || StoresConditionally(env, s)
    || Delivers(env, s)
    || (Completes(env, s) && (Executed(env, s).signals.xret || Executed(env, s).signals.memctl == SfenceVma))
  }

  lemma ReservationSignals(env: Env, inst: Instruction)
    ensures
      var g := SignalsOf(env, inst);
      && (g.memctl.LoadReserved? ==> g.memread && !g.xret) && (g.memctl.StoreConditional? ==> g.memwrite && !g.xret)
      && (g.memctl == SfenceVma ==> !g.xret)
  {
  }

  lemma ExecutedSignals(env: Env, s: ArchState)
    ensures Executed(env, s).signals == SignalsOf(env, Executed(env, s).inst) && Executed(env, s).isValid
  {
    hide AluResult, RsValue, ReadGp, CsrReadValue, DecodedCause, SignalsOf, NumRs, NumRt, NumRd, Plus;
  }

  lemma HandlerDrops(env: Env, c: Control, w: MemoryInterstage)
    ensures HandleException(env, c, w).0.reserved
            == if w.excause != InsnIllegal && !(w.excause == HwBreak && env.stopOn(HwBreak)) then EMPTY_RANGE
               else c.reserved
  {
    hide WriteInternal, UpdateExceptionCause, ExceptionInitiate, DeliverToSupervisor, RecordsAddress, MaskAt;
  }

  lemma ControlReserved(env: Env, c: Control, reserved: AddressRange, e: ExecuteInterstage)
    ensures ControlAfter(env, c, reserved, e).reserved == if Commits(e) && e.signals.xret then EMPTY_RANGE else reserved
  {
    hide WriteInternal, ExceptionReturn, MaskAt;
  }

  lemma AccessReserved(env: Env, m: Memory, c: Control, e: ExecuteInterstage)
    requires e.signals.memctl.LoadReserved? ==> e.signals.memread
    requires e.signals.memctl.StoreConditional? ==> e.signals.memwrite
    ensures
      var access := DataAccess(env, m, c, e);
      !access.fault && e.excause == NoException ==>
        access.reserved
        == if e.signals.memctl.LoadReserved? then RangeAt(e.aluVal, e.signals.memctl.wide)
           else if e.signals.memctl.StoreConditional? || e.signals.memctl == SfenceVma then EMPTY_RANGE
           else c.reserved
    ensures e.excause != NoException ==>
              DataAccess(env, m, c, e).reserved == c.reserved && !DataAccess(env, m, c, e).fault
  {
    hide WriteBytes, WriteCtl, ReadCtl, Read32, Read64, AmoOperation32, AmoOperation64, SignExtend32, RangeAt;
  }

  /** What one instruction does to the reservation. */
  lemma ReservationStep(env: Env, s: ArchState, predicted: Word)
    ensures SingleStep(env, s, predicted).control.reserved
            == if Drops(env, s) then EMPTY_RANGE
               else if Reserves(env, s) then AccessRange(env, s)
               else s.control.reserved
  {
    hide SingleExecute, DataAccess, ControlAfter, HandleException, WritebackValue, ReturnAddress, ComputedNextInstAddr,
      SignalsOf, RangeAt, Writeback;
    PredictionIrrelevant(env, s, predicted, ZERO);
    var e, out := Executed(env, s), Outcome(env, s);
    ExecutedSignals(env, s);
    ReservationSignals(env, e.inst);
    AccessReserved(env, s.memory, s.control, e);
    ControlReserved(env, s.control, DataAccess(env, s.memory, s.control, e).reserved, e);
    HandlerDrops(env, out.control, out.interstage);
  }

  // ---------------------------------------------------------------- whole runs

  function At(env: Env, s: ArchState, n: nat): ArchState {
    SingleRun(env, s, 0, n)
  }

  /** Step `k` is a load-reserved whose reservation nothing drops or replaces before step `n`. */
  predicate Live(env: Env, s: ArchState, n: nat, k: nat) {
    && k < n && Reserves(env, At(env, s, k))
    && (forall j :: k < j < n ==> !Drops(env, At(env, s, j)) && !Reserves(env, At(env, s, j)))
  }

  lemma {:induction false} ReservationHistory(env: Env, s: ArchState, n: nat)
    requires s.control.reserved == EMPTY_RANGE
    ensures forall k :: Live(env, s, n, k) ==> At(env, s, n).control.reserved == AccessRange(env, At(env, s, k))
    ensures (forall k :: !Live(env, s, n, k)) ==> At(env, s, n).control.reserved == EMPTY_RANGE
  {
    hide SingleStep, Reserves, Drops, AccessRange;
    if n > 0 {
      var m := n - 1;
      var t := At(env, s, m);
      ReservationHistory(env, s, m);
      SingleRunExtends(env, s, 0, m, ZERO);
      ReservationStep(env, t, ZERO);
      ReserveKept(env, t);
      if Reserves(env, t) {
        assert Live(env, s, n, m);
      } else if !Drops(env, t) && exists k :: Live(env, s, m, k) {
        var k :| Live(env, s, m, k);
        assert Live(env, s, n, k);
      }
    }
  }

  /** No instruction both makes a reservation and drops it. */
  lemma ReserveKept(env: Env, s: ArchState)
    ensures !(Reserves(env, s) && Drops(env, s))
  {
    hide Outcome, Executed, SignalsOf;
    ExecutedSignals(env, s);
    ReservationSignals(env, Executed(env, s).inst);
  }

  /**
   * Whether the store-conditional in state `t` succeeds: memory written and zero in its destination, or else
   * neither.
   */
  ghost predicate StoresIf(env: Env, t: ArchState, after: ArchState, success: bool) {
    var e := Executed(env, t);
    && (var width := if e.signals.memctl == StoreConditional(true) then 8 else 4;
        after.memory == if success then WriteBytes(t.memory, e.aluVal.bits, width, e.valRt.bits) else t.memory)
    && after.regs == WriteGp(t.regs, e.numRd, Word(if success then 0 else 1))
  }

  lemma ConditionalSignals(env: Env, inst: Instruction)
    ensures
      var g := SignalsOf(env, inst);
      g.memctl.StoreConditional? ==> g.regwrite && g.memwrite && !g.csr && !g.branchJal && !g.branchJalr
  {
  }

  lemma ShortFlag(xlen: Xlen)
    ensures Truncate(xlen, Word(1)) == Word(1) && Truncate(xlen, ZERO) == Word(0)
  {
  }

  /** A store-conditional succeeds exactly when the reservation contains its range. */
  lemma ConditionalStore(env: Env, s: ArchState, predicted: Word)
    requires StoresConditionally(env, s)
    ensures StoresIf(env, s, SingleStep(env, s, predicted), s.control.reserved.Contains(AccessRange(env, s)))
  {
    hide SingleExecute, ControlAfter, HandleException, ReturnAddress, ComputedNextInstAddr, SignalsOf, RangeAt,
      WriteGp, WriteBytes, WriteCtl, ReadCtl, Truncate;
    PredictionIrrelevant(env, s, predicted, ZERO);
    ExecutedSignals(env, s);
    ConditionalSignals(env, Executed(env, s).inst);
    ShortFlag(env.xlen);
  }

  /** What is granted: by the load-reserved still live, or with none live to an access that ends at address zero. */
  ghost predicate Granted(env: Env, s: ArchState, n: nat) {
    var access := AccessSpan(env, At(env, s, n));
    || (exists k :: Live(env, s, n, k) && AccessSpan(env, At(env, s, k)).Grants(access))
    || (access.EndsAtZero() && forall k :: !Live(env, s, n, k))
  }

  /** What should be granted: all bytes of the access were reserved by the load-reserved still live. */
  ghost predicate Deserved(env: Env, s: ArchState, n: nat) {
    exists k :: Live(env, s, n, k) && AccessSpan(env, At(env, s, k)).Includes(AccessSpan(env, At(env, s, n)))
  }

  /** The accesses on which the two differ; each has, or meets a reservation that has, bytes on both sides of 2^64. */
  ghost predicate Misjudged(env: Env, s: ArchState, n: nat) {
    var access := AccessSpan(env, At(env, s, n));
    || (exists k ::
          Live(env, s, n, k)
          && (AccessSpan(env, At(env, s, k)).TakenIn(access) || AccessSpan(env, At(env, s, k)).Overlooks(access)))
    || (access.EndsAtZero() && forall k :: !Live(env, s, n, k))
  }

  lemma GrantedIff(env: Env, s: ArchState, n: nat)
    requires s.control.reserved == EMPTY_RANGE
    ensures At(env, s, n).control.reserved.Contains(AccessRange(env, At(env, s, n))) <==> Granted(env, s, n)
  {
    hide Live, AccessSpan, At, Span.Grants, Span.Range, Span.EndsAtZero, AddressRange.Contains, EMPTY_RANGE;
    var access := AccessSpan(env, At(env, s, n));
    EmptyContains(access);
    ReservationHistory(env, s, n);
    forall k ensures AccessRange(env, At(env, s, k)).Contains(access.Range())
                     <==> AccessSpan(env, At(env, s, k)).Grants(access)
    {
      ContainsIff(AccessSpan(env, At(env, s, k)), access);
    }
  }

  lemma LiveOnce(env: Env, s: ArchState, n: nat, j: nat, k: nat)
    requires Live(env, s, n, j) && Live(env, s, n, k)
    ensures j == k
  {
    hide Reserves, Drops, At;
  }

  /** Success means that the bytes are reserved, exactly outside `Misjudged`. */
  lemma GrantedExactIff(env: Env, s: ArchState, n: nat)
    ensures (Granted(env, s, n) <==> Deserved(env, s, n)) <==> !Misjudged(env, s, n)
  {
    hide Live, AccessSpan, At, Span.Grants, Span.Includes, Span.TakenIn, Span.Overlooks, Span.EndsAtZero, Span.Range;
    if k :| Live(env, s, n, k) {
      var r, access := AccessSpan(env, At(env, s, k)), AccessSpan(env, At(env, s, n));
      ContainsIff(r, access);
      ContainsExactIff(r, access);
      forall j | Live(env, s, n, j) ensures j == k {
        LiveOnce(env, s, n, j, k);
      }
    }
  }

  /** Naturally aligned accesses are never misjudged. */
  lemma AlignedJudged(env: Env, s: ArchState, n: nat)
    requires AccessSpan(env, At(env, s, n)).Aligned()
    requires forall k :: Live(env, s, n, k) ==> AccessSpan(env, At(env, s, k)).Aligned()
    ensures Granted(env, s, n) <==> Deserved(env, s, n)
  {
    hide Live, AccessSpan, At, Span.Aligned, Granted, Deserved;
    AlignedStays(AccessSpan(env, At(env, s, n)));
    forall k | Live(env, s, n, k) ensures !AccessSpan(env, At(env, s, k)).RunsPast() {
      AlignedStays(AccessSpan(env, At(env, s, k)));
    }
    GrantedExactIff(env, s, n);
  }

  /** An access within 2^64 succeeds exactly when a live load-reserved, itself within 2^64, reserved all its bytes. */
  lemma GrantedWithin(env: Env, s: ArchState, n: nat)
    requires !AccessSpan(env, At(env, s, n)).RunsPast()
    ensures Granted(env, s, n)
            <==> exists k ::
                   Live(env, s, n, k) && !AccessSpan(env, At(env, s, k)).RunsPast()
                   && AccessSpan(env, At(env, s, k)).Includes(AccessSpan(env, At(env, s, n)))
  {
    hide Live, AccessSpan, At, Span.Includes;
  }

  /**
   * In every run from reset, a store-conditional succeeds exactly when `Granted`. For an access within 2^64 that is
   * when the last load-reserved, with nothing in between that drops its reservation, reserved all its bytes and was
   * within 2^64 itself; one with bytes on both sides of 2^64 can succeed without that.
   */
  lemma StoreConditionalSafe(env: Env, s: ArchState, n: nat)
    requires s.control.reserved == EMPTY_RANGE
    ensures StoresConditionally(env, At(env, s, n)) ==>
              StoresIf(env, At(env, s, n), At(env, s, n + 1), Granted(env, s, n))
  {
    hide SingleStep, StoresConditionally, StoresIf, Granted, SingleRun, AccessRange;
    if StoresConditionally(env, At(env, s, n)) {
      SingleRunExtends(env, s, 0, n, ZERO);
      ConditionalStore(env, At(env, s, n), ZERO);
      GrantedIff(env, s, n);
    }
  }

  /** The same for the pipelined core, in the cycle in which the store-conditional passes the memory stage. */
  lemma PipelinedStoreConditionalSafe(env: Env, s: ArchState, cycles: nat)
    requires Covered(env) && MaskOk(env, s.control) && s.control.reserved == EMPTY_RANGE
    ensures
      var p := PipeRun(env, PipeReset(s), cycles);
      p.exMem.isValid && StoresConditionally(env, Abs(p)) ==>
        StoresIf(env, Abs(p), Abs(PipeStep(env, p)), Granted(env, s, Passed(env, PipeReset(s), cycles)))
  {
    hide SingleStep, StoresConditionally, StoresIf, Granted, SingleRun, Passed, PipeRun, PipeStep, Inv, MaskOk,
      PipeReset, Abs;
    var p, n := PipeRun(env, PipeReset(s), cycles), Passed(env, PipeReset(s), cycles);
    ResetInv(env, s);
    RunRefines(env, PipeReset(s), cycles);
    StepRefines(env, p);
    SingleRunExtends(env, s, 0, n, p.exMem.predictedNextInstAddr);
    StoreConditionalSafe(env, s, n);
  }
}
