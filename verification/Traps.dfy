/** Whole-run properties of the pipelined core: the path it follows, precise exceptions and privilege. */
module Traps {
  import opened Words
  import opened MachineDefs
  import opened CsrFunctions
  import opened InstructionSet
  import opened Stages
  import opened Refinement
  import opened Progress
  import opened TrapMeaning

  // ---------------------------------------------------------------- the path

  /** In every reachable state of every configuration each stage follows the prediction of the stage ahead of it. */
  lemma PathOverRuns(env: Env, s: ArchState, cycles: nat)
    requires MaskOk(env, s.control)
    ensures Path(PipeRun(env, PipeReset(s), cycles))
  {
    hide *;
    ResetInv(env, s);
    InvParts(env, PipeReset(s));
    StructureRun(env, PipeReset(s), cycles);
    StructureParts(env, PipeRun(env, PipeReset(s), cycles));
  }

  lemma StructureParts(env: Env, p: PipeState)
    requires Structure(env, p)
    ensures MaskOk(env, p.control) && Shapes(env, p) && Path(p)
  {
  }

  /** The program counter is never loaded from a bubble. */
  lemma PcSource(env: Env, p: PipeState)
    requires Structure(env, p)
    ensures
      var p' := PipeStep(env, p);
      || (Drained(p') && p'.pc == Retire(env, Abs(p), p.exMem).pc)
      || p'.pc == p.pc
      || (p'.ifId.isValid && p'.pc == p'.ifId.predictedNextInstAddr)
  {
    hide MemoryStage, Decode, Execute, PipeStep, Writeback, DataHazards, Retire, Shapes, MaskOk;
    if Redirects(Out(env, p).interstage) {
      DrainingStep(env, p);
    } else {
      QuietStep(env, p);
      ExecuteCopies(env, p.idEx);
      NoRedirectNoException(env, p.memory, p.control, p.exMem);
    }
  }

  /** No instruction off the single-cycle core's path ever reaches the memory stage. */
  lemma OnlyPathPasses(env: Env, s: ArchState, cycles: nat)
    requires Covered(env) && MaskOk(env, s.control)
    ensures
      var p := PipeRun(env, PipeReset(s), cycles);
      var t := SingleRun(env, s, 0, Passed(env, PipeReset(s), cycles));
      && (p.exMem.isValid ==>
            p.exMem.instAddr == t.pc && SameEffect(p.exMem, SingleExecute(env, t, p.exMem.predictedNextInstAddr)))
      && (!p.exMem.isValid && !p.idEx.isValid && !p.ifId.isValid ==> p.pc == t.pc)
  {
    hide PipeRun, SingleRun, Passed, MaskOk, Structure, OperandsOk, LinksSafe, SameEffect, SingleExecute, Writeback,
      PipeReset;
    ResetInv(env, s);
    RunRefines(env, PipeReset(s), cycles);
  }

  // ---------------------------------------------------------------- precise exceptions

  lemma ExceptionKeepsMemory(env: Env, m: Memory, c: Control, e: ExecuteInterstage)
    requires MemoryStage(env, m, c, e).interstage.excause != NoException
    ensures MemoryStage(env, m, c, e).memory == m && !MemoryStage(env, m, c, e).interstage.regwrite
    ensures MemoryStage(env, m, c, e).interstage.instAddr == e.instAddr
  {
    hide ControlAfter, WritebackValue, ReturnAddress, ComputedNextInstAddr, WriteBytes, WriteCtl, ReadCtl, Read32,
      Read64, AmoOperation32, AmoOperation64, SignExtend32;
  }

  lemma CauseOfPassing(env: Env, p: PipeState)
    requires ExecuteOk(env, p) && p.exMem.isValid
    ensures Out(env, p).interstage.excause == StepCause(env, Abs(p))
  {
    hide SingleExecute, ControlAfter, WritebackValue, ReturnAddress, ComputedNextInstAddr, DataAccess, Writeback;
    var s := Abs(p);
    var e := SingleExecute(env, s, ZERO);
    ExecuteIgnoresPrediction(env, s, p.exMem.predictedNextInstAddr, ZERO);
    MemoryIgnoresPrediction(env, s.memory, s.control, e, p.exMem.predictedNextInstAddr);
  }

  /**
   * When the pipelined core delivers an exception, its registers and memory are those the older
   * instructions produced, the address, cause and value recorded are those of the excepting instruction,
   * its handler is entered, and nothing younger is in flight or has left a trace.
   */
  lemma PreciseException(env: Env, s: ArchState, cycles: nat)
    requires Covered(env) && MaskOk(env, s.control)
    requires Out(env, PipeRun(env, PipeReset(s), cycles)).interstage.excause != NoException
    ensures
      var p := PipeRun(env, PipeReset(s), cycles);
      var t := SingleRun(env, s, 0, Passed(env, PipeReset(s), cycles));
      var p', out, cause := PipeStep(env, p), Out(env, p), Out(env, p).interstage.excause;
      && p'.regs == t.regs && p'.memory == t.memory && !p'.memWb.regwrite && Drained(p')
      && (p'.control, p'.pc) == HandleException(env, out.control, out.interstage)
      && out.interstage.instAddr == t.pc && cause == StepCause(env, t)
      && (Delivered(env, cause) ==>
            && Recorded(env, t.control, p'.control.csrs, cause, t.pc, SingleExecute(env, t, ZERO).aluVal)
            && (Enters(env, t.control, cause) ==>
                  p'.pc == t.control.csrs[if Delegated(t.control, cause) then STVEC else MTVEC]))
  {
    hide PipeRun, SingleRun, Passed, MaskOk, PipeReset, MemoryStage, PipeStep, HandleException, Writeback, FetchShape,
      DecodeShape, Path, StepCause, Recorded, Delegated, SingleExecute, SingleStep;
    var p := PipeRun(env, PipeReset(s), cycles);
    var t := SingleRun(env, s, 0, Passed(env, PipeReset(s), cycles));
    ResetInv(env, s);
    RunRefines(env, PipeReset(s), cycles);
    assert Structure(env, p) && ExecuteOk(env, p) by { InvParts(env, p); }
    DrainingStep(env, p);
    ExceptionDrains(env, p);
    ExceptionKeepsMemory(env, p.memory, p.control, p.exMem);
    CauseOfPassing(env, p);
    StepRefines(env, p);
    PredictionIrrelevant(env, t, p.exMem.predictedNextInstAddr, ZERO);
    if Delivered(env, Out(env, p).interstage.excause) {
      TrapStep(env, t, ZERO);
    }
  }

  /**
   * While an exception is in flight nothing is fetched and the program counter stays, until it is delivered
   * or discarded.
   */
  lemma FetchStops(env: Env, p: PipeState)
    requires Structure(env, p) && p.stopIf
    ensures
      var p' := PipeStep(env, p);
      Drained(p')
      || (p'.stopIf && p'.pc == p.pc && p'.ifId == FLUSHED_FETCH && !p'.idEx.isValid && p'.exMem.excause != NoException)
  {
    hide MemoryStage, Decode, Execute, PipeStep, Writeback, DataHazards, Shapes, MaskOk;
    if Redirects(Out(env, p).interstage) {
      DrainingStep(env, p);
    } else {
      QuietStep(env, p);
      ExecuteCopies(env, p.idEx);
      NoRedirectNoException(env, p.memory, p.control, p.exMem);
    }
  }

  /** An exception in flight is delivered, or discarded by an older redirection, within two cycles. */
  lemma ExceptionResolves(env: Env, p: PipeState)
    requires Structure(env, p) && p.stopIf
    ensures Drained(PipeStep(env, p)) || Drained(PipeStep(env, PipeStep(env, p)))
  {
    hide PipeStep, Structure, MemoryStage;
    FetchStops(env, p);
    StructureStep(env, p);
    var q := PipeStep(env, p);
    if !Drained(q) {
      FetchStops(env, q);
      if !Redirects(Out(env, q).interstage) {
        NoRedirectNoException(env, q.memory, q.control, q.exMem);
      } else {
        DrainingStep(env, q);
      }
    }
  }

  // ---------------------------------------------------------------- privilege

  /** Supervisor interrupts are only requested where they can be taken. */
  lemma InterruptSFromBelow(f: CsrFile, current: Privilege)
    requires CoreInterruptRequest(f, current) == InterruptS
    ensures current.Level() <= Supervisor.Level()
  {
  }

  lemma TrapNeverLowers(env: Env, c: Control, w: MemoryInterstage)
    requires w.excause == InterruptS ==> c.privilege.Level() <= Supervisor.Level()
    ensures HandleException(env, c, w).0.privilege.Level() >= c.privilege.Level()
  {
    hide WriteInternal, UpdateExceptionCause, ExceptionInitiate, BitSet, MaskAt, RecordsAddress;
  }

  /** Which level a return restores, whatever is stored. */
  lemma ReturnLevel(xlen: Xlen, f: CsrFile, act: Privilege, xret: Privilege)
    ensures xret != Machine ==> ExceptionReturn(xlen, f, act, xret).1.Level() <= Supervisor.Level()
  {
    hide WriteField, ReadField;
  }

  lemma ReturnNeedsLevel(env: Env, c: Control, inst: Instruction, fetched: ExceptionCause)
    requires MaskOk(env, c) && DecodedCause(inst, fetched, c) == NoException && SignalsOf(env, inst).xret
    ensures if SignalsOf(env, inst).xretPrivilege == Machine then c.privilege == Machine
            else c.privilege.Level() >= Supervisor.Level()
  {
  }

  /** A return that executes never raises the level. */
  lemma ReturnNeverRaises(env: Env, c: Control, reserved: AddressRange, e: ExecuteInterstage)
    requires MaskOk(env, c) && Static(env, c, e)
    ensures ControlAfter(env, c, reserved, e).privilege.Level() <= c.privilege.Level()
  {
    hide Write, WriteInternal, ExceptionReturn, MaskAt, DecodedCause, SignalsOf, MaskOk, Requested;
    if Commits(e) && e.signals.xret {
      var f := FetchedAt(env, c, e.instAddr);
      ReturnNeedsLevel(env, c, f.inst, f.excause);
      var c1 := WriteInternal(env.xlen, c.csrs, MINSTRET, Offset(c.csrs[MINSTRET], 1));
      var c2 := if e.signals.csrWrite then Write(env.xlen, c1, e.inst.csr, e.aluVal) else c1;
      ReturnLevel(env.xlen, c2, c.privilege, e.signals.xretPrivilege);
    }
  }

  lemma NoReturnKeepsLevel(env: Env, c: Control, reserved: AddressRange, e: ExecuteInterstage)
    requires !Commits(e) || !e.signals.xret
    ensures ControlAfter(env, c, reserved, e).privilege == c.privilege
  {
    hide Write, WriteInternal, ExceptionReturn;
  }

  /** The program memory reports faults and breakpoints, never interrupts: those come from the CSRs. */
  ghost predicate ReportsNoInterrupt(env: Env) {
    forall a, privilege, satp :: env.program(a, privilege, satp).excause != InterruptS
  }

  lemma CauseKept(inst: Instruction, fetched: ExceptionCause, c: Control)
    ensures DecodedCause(inst, fetched, c) == InterruptS ==> fetched == InterruptS
  {
    hide FlagsOf, Has, Illegal;
  }

  lemma InterruptCarried(env: Env, m: Memory, c: Control, e: ExecuteInterstage)
    requires ReportsNoInterrupt(env) && Static(env, c, e)
    ensures MemoryStage(env, m, c, e).interstage.excause == InterruptS ==> c.privilege.Level() <= Supervisor.Level()
  {
    hide DataAccess, ControlAfter, WritebackValue, ReturnAddress, ComputedNextInstAddr, SignalsOf, DecodedCause,
      CoreInterruptRequest;
    var f := FetchedAt(env, c, e.instAddr);
    CauseKept(f.inst, f.excause, c);
    if Requested(c) == InterruptS {
      InterruptSFromBelow(c.csrs, c.privilege);
    }
  }

  /** One instruction: only a delivered exception raises the level, only an executed return lowers it. */
  lemma RetirePrivilege(env: Env, s: ArchState, e: ExecuteInterstage)
    requires MaskOk(env, s.control) && ReportsNoInterrupt(env) && Static(env, s.control, e)
    ensures
      var s', w := Retire(env, s, e), MemoryStage(env, s.memory, s.control, e).interstage;
      && (s'.control.privilege.Level() > s.control.privilege.Level() ==> w.excause != NoException)
      && (s'.control.privilege.Level() < s.control.privilege.Level() ==> Commits(e) && e.signals.xret)
  {
    hide DataAccess, ControlAfter, WritebackValue, ReturnAddress, ComputedNextInstAddr, HandleException, MaskOk,
      FaultCause, Writeback, Static;
    var reserved := DataAccess(env, s.memory, s.control, e).reserved;
    var out := MemoryStage(env, s.memory, s.control, e);
    ReturnNeverRaises(env, s.control, reserved, e);
    if !Commits(e) || !e.signals.xret {
      NoReturnKeepsLevel(env, s.control, reserved, e);
    }
    if out.interstage.excause != NoException {
      InterruptCarried(env, s.memory, s.control, e);
      TrapNeverLowers(env, out.control, out.interstage);
    }
  }

  lemma SingleStatic(env: Env, s: ArchState, predicted: Word)
    ensures Static(env, s.control, SingleExecute(env, s, predicted))
  {
    hide Decode, Execute, SignalsOf, DecodedCause, Requested;
    var f := FetchAt(env, s.control, s.pc, predicted);
    DecodedStatically(env, s.regs, s.control, f);
    ExecuteCopies(env, Decode(env, s.regs, s.control, f));
  }

  /** The same for every step of the single-cycle core. */
  lemma StepPrivilege(env: Env, s: ArchState, predicted: Word)
    requires MaskOk(env, s.control) && ReportsNoInterrupt(env)
    ensures
      var e, s' := SingleExecute(env, s, predicted), SingleStep(env, s, predicted);
      var w := MemoryStage(env, s.memory, s.control, e).interstage;
      && (s'.control.privilege.Level() > s.control.privilege.Level() ==> w.excause != NoException)
      && (s'.control.privilege.Level() < s.control.privilege.Level() ==> Commits(e) && e.signals.xret)
  {
    hide MemoryStage, Retire, SingleExecute, Static, MaskOk;
    SingleStatic(env, s, predicted);
    RetirePrivilege(env, s, SingleExecute(env, s, predicted));
  }

  /**
   * Over every run of the pipelined core, with any hazard unit and predictor: the same, cycle by cycle, and
   * the legality mask always is the level's own.
   */
  lemma PrivilegeOverRuns(env: Env, s: ArchState, cycles: nat)
    requires MaskOk(env, s.control) && ReportsNoInterrupt(env)
    ensures
      var p, p' := PipeRun(env, PipeReset(s), cycles), PipeRun(env, PipeReset(s), cycles + 1);
      && MaskOk(env, p.control)
      && (p'.control.privilege.Level() > p.control.privilege.Level() ==> Out(env, p).interstage.excause != NoException)
      && (p'.control.privilege.Level() < p.control.privilege.Level() ==> Commits(p.exMem) && p.exMem.signals.xret)
  {
    hide PipeStep, MemoryStage, MaskOk, FetchShape, DecodeShape, Path, Writeback, CommitPc, PipeReset, Retire,
      ReportsNoInterrupt, Static, Inv;
    var p := PipeRun(env, PipeReset(s), cycles);
    ResetInv(env, s);
    InvParts(env, PipeReset(s));
    StructureRun(env, PipeReset(s), cycles);
    StructureStep(env, p);
    if p.exMem.isValid {
      RetirePrivilege(env, Abs(p), p.exMem);
    }
  }
}
