/**
 * The pipelined core computes what the single-cycle core computes: a stuttering simulation between
 * the two step functions, for the stalling hazard unit with any next-PC predictor and for the
 * forwarding one where forwarding is sound.
 */
module Refinement {
  import opened Words
  import opened Alu
  import opened MachineDefs
  import opened CsrFunctions
  import opened InstructionSet
  import opened Stages

  // ---------------------------------------------------------------- abstraction

  /** Address of the instruction that follows the one in ID/EX: the one in IF/ID or the next to be fetched. */
  function BehindDecode(p: PipeState): Word {
    if p.ifId.isValid then p.ifId.instAddr else p.pc
  }

  /** Address of the instruction that follows the one in EX/MEM. */
  function BehindExecute(p: PipeState): Word {
    if p.idEx.isValid then p.idEx.instAddr else BehindDecode(p)
  }

  /** Address of the oldest instruction that has not passed the memory stage. */
  function CommitPc(p: PipeState): Word {
    if p.exMem.isValid then p.exMem.instAddr else BehindExecute(p)
  }

  /**
   * The architectural state a pipeline state stands for: the pending MEM/WB write is done, the rest in flight
   * is not.
   */
  function Abs(p: PipeState): ArchState {
    ArchState(CommitPc(p), Writeback(p.regs, p.memWb), p.memory, p.control)
  }

  // ---------------------------------------------------------------- invariant

  function MaskFor(env: Env, p: Privilege): FlagMask {
    FlagMask(MaskAt(UnsupportedFlags(env), p))
  }

  predicate MaskOk(env: Env, c: Control) {
    c.checkMask == MaskFor(env, c.privilege)
  }

  predicate InertSignals(s: Signals, numRd: RegisterId) {
    s.memctl == AccessNone && !s.branchBxx && !s.branchJal && !s.branchJalr && (s.regwrite ==> numRd == 0)
  }

  predicate InertExecute(e: ExecuteInterstage) {
    && !e.isValid && e.excause == NoException && e.nextInstAddr == e.predictedNextInstAddr
    && InertSignals(e.signals, e.numRd)
  }

  predicate InertDecode(d: DecodeInterstage) {
    && !d.isValid && d.excause == NoException && d.nextInstAddr == d.predictedNextInstAddr
    && InertSignals(d.signals, d.numRd)
  }

  function FetchOf(env: Env, c: Control, d: DecodeInterstage): FetchInterstage {
    FetchAt(env, c, d.instAddr, d.predictedNextInstAddr)
  }

  predicate SameButOperands(a: DecodeInterstage, b: DecodeInterstage) {
    a.(valRs := ZERO, valRt := ZERO, csrReadVal := ZERO) == b.(valRs := ZERO, valRt := ZERO, csrReadVal := ZERO)
  }

  /** Fetching finds the same in both: level, address translation and interrupt requests agree. */
  predicate SeesSame(c: Control, d: Control) {
    c.privilege == d.privilege && c.csrs[SATP] == d.csrs[SATP] && Requested(c) == Requested(d)
  }

  /** Equal, except that an excepting instruction may carry stale operands it will not use. */
  predicate SameEffect(a: ExecuteInterstage, b: ExecuteInterstage) {
    a.(valRt := ZERO, csrReadVal := ZERO) == b.(valRt := ZERO, csrReadVal := ZERO)
    && (a.excause == NoException ==> a == b)
  }

  predicate Redirects(w: MemoryInterstage) {
    w.excause != NoException || Mispredicted(w) || w.csrWritten
  }

  /**
   * The instructions in flight follow each other's predictions; nothing is in flight behind an
   * exception, and fetching is stopped exactly while an exception is in flight.
   */
  predicate Path(p: PipeState) {
    (p.ifId.isValid ==> p.pc == p.ifId.predictedNextInstAddr)
    && (p.idEx.isValid && p.idEx.excause == NoException ==> BehindDecode(p) == p.idEx.predictedNextInstAddr)
    && (p.exMem.isValid && p.exMem.excause == NoException ==> BehindExecute(p) == p.exMem.predictedNextInstAddr)
    && (p.exMem.excause != NoException ==> !p.idEx.isValid && !p.ifId.isValid)
    && (p.idEx.excause != NoException ==> !p.ifId.isValid)
    && (p.stopIf <==> p.exMem.excause != NoException || p.idEx.excause != NoException)
  }

  predicate FetchShape(env: Env, p: PipeState) {
    if p.ifId.isValid then p.ifId == FetchAt(env, p.control, p.ifId.instAddr, p.ifId.predictedNextInstAddr)
    else p.ifId == FLUSHED_FETCH
  }

  predicate DecodeShape(env: Env, p: PipeState) {
    if p.idEx.isValid then SameButOperands(p.idEx, Decode(env, p.regs, p.control, FetchOf(env, p.control, p.idEx)))
    else InertDecode(p.idEx)
  }

  /** The parts of EX/MEM that do not depend on operands are what fetch and decode give at the present level. */
  predicate Static(env: Env, c: Control, e: ExecuteInterstage) {
    var f := FetchedAt(env, c, e.instAddr);
    e.inst == f.inst && e.signals == SignalsOf(env, f.inst) && e.excause == DecodedCause(f.inst, f.excause, c)
  }

  predicate ExecuteShape(env: Env, p: PipeState) {
    if p.exMem.isValid then Static(env, p.control, p.exMem) else InertExecute(p.exMem)
  }

  predicate Shapes(env: Env, p: PipeState) {
    FetchShape(env, p) && DecodeShape(env, p) && ExecuteShape(env, p)
  }

  /** State once the instruction in EX/MEM, if any, has retired. */
  function AfterExMem(env: Env, p: PipeState): ArchState {
    if p.exMem.isValid then Retire(env, Abs(p), p.exMem) else Abs(p)
  }

  predicate ExecuteOk(env: Env, p: PipeState) {
    p.exMem.isValid ==> SameEffect(p.exMem, SingleExecute(env, Abs(p), p.exMem.predictedNextInstAddr))
  }

  predicate OperandsOk(env: Env, p: PipeState) {
    var out := MemoryStage(env, p.memory, p.control, p.exMem);
    p.idEx.isValid && p.idEx.excause == NoException && !Redirects(out.interstage) ==>
      var a := AfterExMem(env, p);
      p.idEx == Decode(env, a.regs, a.control, FetchOf(env, a.control, p.idEx))
  }

  /** What every reachable state satisfies, whatever the hazard unit, the predictor and the program. */
  predicate Structure(env: Env, p: PipeState) {
    MaskOk(env, p.control) && Shapes(env, p) && Path(p)
  }

  predicate IsJump(inst: Instruction) {
    inst.opcode == Jal || inst.opcode == Jalr
  }

  predicate IsCsrImmediate(inst: Instruction) {
    inst.opcode.Csr? && inst.opcode.immediate
  }

  /** A jump to itself that does not read the register it links. */
  predicate LoopsUnread(inst: Instruction, a: Word, target: Word) {
    target == a && (inst.opcode == Jal || inst.rs != inst.rd)
  }

  /** Whether the jump `inst` at `a` can go to `target`. */
  predicate MayJumpTo(xlen: Xlen, inst: Instruction, a: Word, target: Word) {
    if inst.opcode == Jal then target == Plus(a, inst.immediate)
    else target == Truncate(xlen, if inst.rs == 0 then inst.immediate else target)
  }

  /** The prediction for a jump is wrong, or harmless because the address linked is the address jumped to. */
  predicate LinkSafe(xlen: Xlen, inst: Instruction, a: Word, predicted: Word) {
    IsJump(inst) && inst.rd != 0 && MayJumpTo(xlen, inst, a, predicted) && !LoopsUnread(inst, a, predicted) ==>
      Truncate(xlen, predicted) == Truncate(xlen, Offset(a, 4))
  }

  predicate LinksSafe(env: Env, p: PipeState) {
    (p.ifId.isValid ==> LinkSafe(env.xlen, p.ifId.inst, p.ifId.instAddr, p.ifId.predictedNextInstAddr))
    && (p.idEx.isValid ==> LinkSafe(env.xlen, p.idEx.inst, p.idEx.instAddr, p.idEx.predictedNextInstAddr))
    && (p.exMem.isValid ==> LinkSafe(env.xlen, p.exMem.inst, p.exMem.instAddr, p.exMem.predictedNextInstAddr))
  }

  /** Configurations whose hazard unit hides the pipeline: stalling always, forwarding under two conditions. */
  ghost predicate Covered(env: Env) {
    env.hazardUnit == HuStall
    || (env.hazardUnit == HuStallForward
        && PredictorSafe(env) && ProgramSafe(env.program))
  }

  /** No jump is predicted to go where its link register, read right behind it, would tell the two apart. */
  ghost predicate PredictorSafe(env: Env) {
    forall cycle: nat, inst, a :: cycle > 0 ==> LinkSafe(env.xlen, inst, a, env.predict(cycle, inst, a))
  }

  ghost predicate ProgramSafe(program: (Word, Privilege, Word) -> Fetched) {
    forall a, privilege, satp :: ImmediateSafe(program(a, privilege, satp).inst)
  }

  /** Not a CSR instruction whose immediate could be taken for the number of a register in flight. */
  predicate ImmediateSafe(inst: Instruction) {
    IsCsrImmediate(inst) ==> inst.rs == 0
  }

  predicate Inv(env: Env, p: PipeState) {
    && Structure(env, p) && ExecuteOk(env, p) && OperandsOk(env, p)
    && (env.hazardUnit == HuStallForward ==> LinksSafe(env, p))
  }

  // ---------------------------------------------------------------- stage facts

  lemma InertMemory(env: Env, m: Memory, c: Control, e: ExecuteInterstage)
    requires InertExecute(e)
    ensures
      var out := MemoryStage(env, m, c, e);
      out.memory == m && out.control == c && !Redirects(out.interstage) && !out.interstage.isValid
      && (out.interstage.regwrite ==> out.interstage.numRd == 0)
  {
    hide WriteInternal, ExceptionReturn, SpecialAccess, RegularAccess, Truncate;
  }

  lemma NoRedirectKeepsControl(env: Env, m: Memory, c: Control, e: ExecuteInterstage)
    requires !Redirects(MemoryStage(env, m, c, e).interstage)
    ensures
      var c' := MemoryStage(env, m, c, e).control;
      c'.privilege == c.privilege && c'.checkMask == c.checkMask && SeesSame(c', c)
  {
    hide ExceptionReturn, DataAccess, Truncate, WriteInternal, CoreInterruptRequest;
    CountSeesSame(env.xlen, c.csrs, c.privilege, Offset(c.csrs[MINSTRET], 1));
  }

  /** The instruction count is no part of what fetching depends on. */
  lemma CountSeesSame(xlen: Xlen, f: CsrFile, p: Privilege, count: Word)
    ensures
      var f' := WriteInternal(xlen, f, MINSTRET, count);
      f'[SATP] == f[SATP] && CoreInterruptRequest(f', p) == CoreInterruptRequest(f, p)
  {
    hide DefaultWrite, WriteMask, Select;
  }

  lemma HandlerIgnoresResult(env: Env, c: Control, v: MemoryInterstage, w: MemoryInterstage)
    requires v.(towriteVal := ZERO, predictedNextInstAddr := ZERO)
             == w.(towriteVal := ZERO, predictedNextInstAddr := ZERO)
    ensures HandleException(env, c, v) == HandleException(env, c, w)
  {
    hide WriteInternal, UpdateExceptionCause, EnterHandler, DeliverToSupervisor, RecordsAddress;
  }

  lemma ExceptionSkipsMemory(env: Env, m: Memory, c: Control, e: ExecuteInterstage)
    requires e.excause != NoException
    ensures
      var out := MemoryStage(env, m, c, e);
      out.memory == m && out.control == c && !out.interstage.regwrite
  {
    hide SpecialAccess, RegularAccess, Truncate, WriteInternal, ExceptionReturn;
  }

  lemma SameEffectInterstage(env: Env, m: Memory, c: Control, a: ExecuteInterstage, b: ExecuteInterstage)
    requires SameEffect(a, b) && a.excause != NoException
    ensures MemoryStage(env, m, c, a).interstage.(towriteVal := ZERO)
            == MemoryStage(env, m, c, b).interstage.(towriteVal := ZERO)
  {
    hide ControlAfter, SpecialAccess, RegularAccess, Truncate, ReturnAddress;
  }

  lemma SameEffectRetires(env: Env, s: ArchState, a: ExecuteInterstage, b: ExecuteInterstage)
    requires SameEffect(a, b)
    ensures Retire(env, s, a) == Retire(env, s, b)
  {
    hide HandleException, ControlAfter, SpecialAccess, RegularAccess, Truncate, WriteGp, BranchTaken, ReturnAddress,
      MemoryStage;
    if a.excause != NoException {
      var v, w := MemoryStage(env, s.memory, s.control, a), MemoryStage(env, s.memory, s.control, b);
      ExceptionSkipsMemory(env, s.memory, s.control, a);
      ExceptionSkipsMemory(env, s.memory, s.control, b);
      SameEffectInterstage(env, s.memory, s.control, a, b);
      HandlerIgnoresResult(env, s.control, v.interstage, w.interstage);
    }
  }

  // ---------------------------------------------------------------- one step

  /** What the instruction in EX/MEM leaves behind, stated on the pipeline's own fields. */
  lemma AfterExMemFields(env: Env, p: PipeState)
    requires Shapes(env, p)
    ensures
      var out, a := MemoryStage(env, p.memory, p.control, p.exMem), AfterExMem(env, p);
      && a.regs == Writeback(Abs(p).regs, out.interstage)
      && a.memory == out.memory
      && (out.interstage.excause != NoException ==>
           p.exMem.isValid && (a.control, a.pc) == HandleException(env, out.control, out.interstage))
      && (out.interstage.excause == NoException ==> a.control == out.control)
      && (out.interstage.excause == NoException && p.exMem.isValid ==> a.pc == out.interstage.computedNextInstAddr)
  {
    hide MemoryStage, HandleException, Decode, FetchAt;
    if !p.exMem.isValid {
      InertMemory(env, p.memory, p.control, p.exMem);
    }
  }

  lemma ExceptionDrains(env: Env, p: PipeState)
    requires MemoryStage(env, p.memory, p.control, p.exMem).interstage.excause != NoException
    ensures
      var out, p' := MemoryStage(env, p.memory, p.control, p.exMem), PipeStep(env, p);
      p' == PipeState(
              HandleException(env, out.control, out.interstage).1, Writeback(p.regs, p.memWb), out.memory,
              HandleException(env, out.control, out.interstage).0, false,
              FLUSHED_FETCH, FLUSHED_DECODE, FLUSHED_EXECUTE, out.interstage, p.stallCount, p.cycleCount + 1)
  {
    hide MemoryStage, HandleException, Decode, Execute, Fetch, Writeback;
  }

  lemma RedirectDrains(env: Env, p: PipeState)
    requires
      var w := MemoryStage(env, p.memory, p.control, p.exMem).interstage;
      w.excause == NoException && Redirects(w)
    ensures
      var out, p' := MemoryStage(env, p.memory, p.control, p.exMem), PipeStep(env, p);
      p' == PipeState(
              out.interstage.computedNextInstAddr, Writeback(p.regs, p.memWb), out.memory, out.control, false,
              FLUSHED_FETCH, FLUSHED_DECODE, FLUSHED_EXECUTE, out.interstage, p.stallCount, p.cycleCount + 1)
  {
    hide MemoryStage, HandleException, Decode, Execute, Fetch, Writeback, Forwarded, HazardWith, StallRequested;
  }

  // ---- no redirection

  function Out(env: Env, p: PipeState): MemoryOutcome {
    MemoryStage(env, p.memory, p.control, p.exMem)
  }

  function NextDecode(env: Env, p: PipeState): DecodeInterstage {
    Decode(env, Writeback(p.regs, p.memWb), Out(env, p).control, p.ifId)
  }

  function NextExecute(env: Env, p: PipeState): ExecuteInterstage {
    Execute(env, p.idEx)
  }

  function Hazards(env: Env, p: PipeState): (bool, DecodeInterstage) {
    DataHazards(env.hazardUnit, Out(env, p).interstage, NextExecute(env, p), NextDecode(env, p))
  }

  predicate Stalls(env: Env, p: PipeState) {
    Hazards(env, p).0 || StallRequested(Hazards(env, p).1, NextExecute(env, p))
  }

  lemma HazardsKeepInstruction(hu: HazardUnit, w: MemoryInterstage, e: ExecuteInterstage, d: DecodeInterstage)
    ensures SameButOperands(DataHazards(hu, w, e, d).1, d)
  {
    hide HazardWith;
  }

  /** The four ways a step ends when nothing redirects the program counter. */
  function QuietNext(env: Env, p: PipeState): PipeState {
    var q := p.(regs := Writeback(p.regs, p.memWb), memory := Out(env, p).memory, control := Out(env, p).control,
                memWb := Out(env, p).interstage, exMem := NextExecute(env, p), cycleCount := p.cycleCount + 1,
                stopIf := false);
    var fetched := Fetch(env, q.control, p.pc, q.cycleCount, p.stopIf);
    if q.exMem.excause != NoException then q.(idEx := FLUSHED_DECODE, ifId := FLUSHED_FETCH, stopIf := true)
    else if NextDecode(env, p).excause != NoException then
      q.(idEx := Hazards(env, p).1, ifId := FLUSHED_FETCH, stopIf := true)
    else if Stalls(env, p) then q.(idEx := FLUSHED_DECODE, stallCount := p.stallCount + 1)
    else q.(idEx := Hazards(env, p).1, ifId := fetched, pc := fetched.predictedNextInstAddr)
  }

  lemma QuietStep(env: Env, p: PipeState)
    requires !Redirects(Out(env, p).interstage)
    ensures PipeStep(env, p) == QuietNext(env, p)
  {
    hide MemoryStage, HandleException, Decode, Execute, Fetch, Writeback, HazardWith, DataHazards;
    HazardsKeepInstruction(env.hazardUnit, Out(env, p).interstage, NextExecute(env, p), NextDecode(env, p));
    assert DataHazards(env.hazardUnit, Out(env, p).interstage, NextExecute(env, p), FLUSHED_DECODE)
           == (false, FLUSHED_DECODE) by {
      NoHazardWhenFlushed(env.hazardUnit, Out(env, p).interstage, NextExecute(env, p));
    }
  }

  lemma NoHazardWhenFlushed(hu: HazardUnit, w: MemoryInterstage, e: ExecuteInterstage)
    ensures DataHazards(hu, w, e, FLUSHED_DECODE) == (false, FLUSHED_DECODE)
  {
  }

  // ---- the legality mask

  lemma PrivilegeMask(env: Env, c: Control, p: Privilege)
    requires MaskOk(env, c)
    ensures MaskOk(env, SetCurrentPrivilege(c, p))
  {
  }

  lemma MemoryKeepsMask(env: Env, m: Memory, c: Control, e: ExecuteInterstage)
    requires MaskOk(env, c)
    ensures MaskOk(env, MemoryStage(env, m, c, e).control)
  {
    hide WriteInternal, ExceptionReturn, DataAccess;
  }

  lemma HandlerKeepsMask(env: Env, c: Control, w: MemoryInterstage)
    requires MaskOk(env, c)
    ensures MaskOk(env, HandleException(env, c, w).0)
  {
    hide WriteInternal, UpdateExceptionCause, ExceptionInitiate, DeliverToSupervisor;
  }

  // ---- decode

  lemma DecodeStatic(env: Env, r1: Registers, r2: Registers, c1: Control, c2: Control, f: FetchInterstage)
    requires c1.privilege == c2.privilege && c1.checkMask == c2.checkMask
    ensures SameButOperands(Decode(env, r1, c1, f), Decode(env, r2, c2, f))
  {
    hide RsValue, SignalsOf, NumRs, NumRt, NumRd, CsrReadValue, FlagsOf, Has, Illegal, ReadGp;
  }

  lemma FlushedFetchDecodesInert(env: Env, regs: Registers, c: Control)
    requires MaskOk(env, c)
    ensures InertDecode(Decode(env, regs, c, FLUSHED_FETCH))
    ensures !Decode(env, regs, c, FLUSHED_FETCH).signals.csr
    ensures Decode(env, regs, c, FLUSHED_FETCH).numRs == Decode(env, regs, c, FLUSHED_FETCH).numRt == 0
  {
  }

  /** Which value an operand read sees after two pending write-backs. */
  lemma ReadAfterTwo(regs: Registers, w: MemoryInterstage, v: MemoryInterstage, r: RegisterId)
    ensures ReadGp(Writeback(Writeback(regs, w), v), r)
            == if v.regwrite && v.numRd == r && r != 0 then v.towriteVal
               else if w.regwrite && w.numRd == r && r != 0 then w.towriteVal
               else ReadGp(regs, r)
  {
  }

  lemma UnneededRegisterIsZero(inst: Instruction)
    ensures !Has(FlagsOf(inst.opcode), IMF_ALU_REQ_RS) ==> NumRs(inst) == 0
    ensures !Has(FlagsOf(inst.opcode), IMF_ALU_REQ_RT) ==> NumRt(inst) == 0
    ensures Has(FlagsOf(inst.opcode), IMF_ALU_RS_ID) <==> IsCsrImmediate(inst)
  {
  }

  // ---- forwarding

  /** Rows of the instruction table that write a register: those that touch memory also read it. */
  lemma RegisterWriters(op: Opcode)
    requires Has(FlagsOf(op), IMF_REGWRITE) && !Has(FlagsOf(op), IMF_MEMREAD)
    ensures AccessOf(op) == AccessNone && !Has(FlagsOf(op), IMF_BRANCH)
    ensures Has(FlagsOf(op), IMF_CSR) <==> op.Csr?
    ensures Has(FlagsOf(op), IMF_JUMP) <==> op == Jal
    ensures Has(FlagsOf(op), IMF_BRANCH_JALR) <==> op == Jalr
  {
  }

  lemma NoAccess(env: Env, m: Memory, c: Control, e: ExecuteInterstage)
    requires e.signals.memctl == AccessNone
    ensures DataAccess(env, m, c, e) == Access(m, c.reserved, e.aluVal, false)
  {
  }

  lemma AluTruncates(env: Env, d: DecodeInterstage)
    ensures Truncate(env.xlen, AluResult(env, d)) == AluResult(env, d)
  {
    hide Operate;
  }

  /** What write-back receives from a register-writing instruction that does not read memory. */
  lemma WrittenBack(env: Env, s: ArchState, predicted: Word)
    requires
      var e := SingleExecute(env, s, predicted);
      e.excause == NoException && e.signals.regwrite && !e.signals.memread
    ensures
      var e := SingleExecute(env, s, predicted);
      MemoryStage(env, s.memory, s.control, e).interstage.towriteVal
      == if e.inst.opcode.Csr? then e.csrReadVal
         else if IsJump(e.inst) then Truncate(env.xlen, e.nextInstAddr)
         else e.aluVal
  {
    hide AluResult, ControlAfter, ReturnAddress, FlagsOf, Has, AccessOf, AluOf, RsValue, CsrReadValue, DecodedCause,
      DataAccess, Truncate, NumRs, NumRt, NumRd, ReadGp, XretPrivilege, BranchTaken;
    var inst := env.program(s.pc, s.control.privilege, s.control.csrs[SATP]).inst;
    RegisterWriters(inst.opcode);
    NoAccess(env, s.memory, s.control, SingleExecute(env, s, predicted));
    AluTruncates(env, Decode(env, s.regs, s.control, FetchAt(env, s.control, s.pc, predicted)));
  }

  /** Where a jump goes. */
  lemma JumpTarget(env: Env, s: ArchState, predicted: Word)
    requires
      var e := SingleExecute(env, s, predicted);
      e.excause == NoException && IsJump(e.inst)
    ensures
      var e := SingleExecute(env, s, predicted);
      MemoryStage(env, s.memory, s.control, e).interstage.computedNextInstAddr
      == if e.inst.opcode == Jal then Plus(s.pc, e.inst.immediate) else e.aluVal
  {
    hide AluResult, ControlAfter, ReturnAddress, RsValue, CsrReadValue, DecodedCause, DataAccess, Truncate, NumRs,
      NumRt, NumRd, ReadGp, Plus;
  }

  lemma LowHalvesOfPlus(a: bv64, b: bv64)
    ensures Low32((a & 0xffff_ffff) + (b & 0xffff_ffff)) == Low32(a + b)
  {
  }

  lemma AddIsPlus(a: bv64, b: bv64)
    ensures Add(a, b) == a + b && Low32(a) == a & 0xffff_ffff
  {
  }

  lemma AddOfHalves(a: bv64, b: bv64)
    ensures Add(a & 0xffff_ffff, b & 0xffff_ffff) == (a & 0xffff_ffff) + (b & 0xffff_ffff)
  {
  }

  lemma LowHalvesAdd(a: bv64, b: bv64)
    ensures Low32(Add(Low32(a), Low32(b))) == Low32(Add(a, b))
  {
    hide Add, Low32;
    LowHalvesOfPlus(a, b);
    AddIsPlus(a, b);
    AddIsPlus(b, a);
    AddOfHalves(a, b);
  }

  lemma SignExtensionKeepsLow(v: bv64)
    ensures Low32(SignExtend32(v)) == Low32(v)
  {
  }

  lemma AddOperations(a: bv64, b: bv64)
    ensures Operate32(ADD, false, a, b) == SignExtend32(Add(Low32(a), Low32(b)))
    ensures Operate64(ADD, false, a, b) == Add(a, b)
  {
    hide Signed, ArithmeticShiftRight, FromBool, SignExtend32, Low32;
  }

  lemma KeepOperations(v: bv64)
    ensures Operate32(OR, false, 0, v) == Operate32(AND, true, 0, v) == SignExtend32(Low32(v))
    ensures Operate64(OR, false, 0, v) == Operate64(AND, true, 0, v) == v
  {
    hide Signed, ArithmeticShiftRight, FromBool, SignExtend32;
  }

  /** At either width the ALU adds modulo 2^XLEN. */
  lemma AluAdds(xlen: Xlen, a: bv64, b: bv64)
    ensures TruncateBits(xlen, Operate(BasicAlu(ADD), xlen != Xlen64, false, a, b)) == TruncateBits(xlen, Add(a, b))
  {
    hide Operate32, Operate64, Multiply32, Multiply64, Add, Low32, SignExtend32;
    AddOperations(a, b);
    SignExtensionKeepsLow(Add(Low32(a), Low32(b)));
    LowHalvesAdd(a, b);
  }

  /** Setting or clearing no bits leaves a CSR value as it was read. */
  lemma AluKeepsCsr(xlen: Xlen, op: AluOp, modified: bool, v: bv64)
    requires (op == OR && !modified) || (op == AND && modified)
    ensures TruncateBits(xlen, Operate(BasicAlu(op), xlen != Xlen64, modified, 0, TruncateBits(xlen, v)))
            == TruncateBits(xlen, v)
  {
    hide Operate32, Operate64, Multiply32, Multiply64, Low32, SignExtend32;
    var u := TruncateBits(xlen, v);
    KeepOperations(u);
    SignExtensionKeepsLow(Low32(u));
    assert Low32(Low32(u)) == Low32(u) by { LowTwice(u); }
    LowTwice(v);
  }

  lemma LowTwice(v: bv64)
    ensures Low32(Low32(v)) == Low32(v)
  {
  }

  lemma JalSignals(env: Env, inst: Instruction)
    requires inst.opcode == Jal
    ensures
      var g := SignalsOf(env, inst);
      && g.component == BasicAlu(ADD) && g.wOperation == (env.xlen != Xlen64)
      && g.aluPc && g.alusrc && !g.csrToAlu && !g.aluMod
  {
  }

  lemma JalAlu(env: Env, s: ArchState, predicted: Word)
    requires
      var e := SingleExecute(env, s, predicted);
      e.excause == NoException && e.inst.opcode == Jal
    ensures SingleExecute(env, s, predicted).aluVal
            == Truncate(env.xlen, Plus(s.pc, SingleExecute(env, s, predicted).inst.immediate))
  {
    hide ReadGp, RsValue, CsrReadValue, DecodedCause, Operate, TruncateBits, SignalsOf, FlagsOf, Has, NumRs, NumRt,
      NumRd, Add;
    JalSignals(env, SingleExecute(env, s, predicted).inst);
    AluAdds(env.xlen, s.pc.bits, SingleExecute(env, s, predicted).inst.immediate.bits);
  }

  lemma SilentCsrSignals(env: Env, inst: Instruction)
    requires inst.opcode.Csr? && !SignalsOf(env, inst).csrWrite
    ensures NumRs(inst) == 0
    ensures
      var g := SignalsOf(env, inst);
      g.csrToAlu && !g.aluPc && g.wOperation == (env.xlen != Xlen64)
      && ((g.component == BasicAlu(OR) && !g.aluMod) || (g.component == BasicAlu(AND) && g.aluMod))
      && Has(FlagsOf(inst.opcode), IMF_CSR)
  {
  }

  lemma SilentCsrAlu(env: Env, s: ArchState, predicted: Word)
    requires
      var e := SingleExecute(env, s, predicted);
      e.excause == NoException && e.inst.opcode.Csr? && !e.signals.csrWrite
    ensures SingleExecute(env, s, predicted).aluVal == SingleExecute(env, s, predicted).csrReadVal
  {
    hide DecodedCause, Operate, TruncateBits, SignalsOf, FlagsOf, Has, NumRs;
    var inst := env.program(s.pc, s.control.privilege, s.control.csrs[SATP]).inst;
    SilentCsrSignals(env, inst);
    assert RsValue(inst, s.regs) == ZERO;
    var g := SignalsOf(env, inst);
    AluKeepsCsr(env.xlen, g.component.aluOp, g.aluMod, s.control.csrs[inst.csr].bits);
  }

  lemma JalrSignals(env: Env, inst: Instruction)
    requires inst.opcode == Jalr
    ensures
      var g := SignalsOf(env, inst);
      && g.component == BasicAlu(ADD) && g.wOperation == (env.xlen != Xlen64)
      && !g.aluPc && g.alusrc && !g.csrToAlu && !g.aluMod
    ensures NumRs(inst) == inst.rs && !Has(FlagsOf(inst.opcode), IMF_ALU_RS_ID)
  {
  }

  lemma JalrAlu(env: Env, s: ArchState, predicted: Word)
    requires
      var e := SingleExecute(env, s, predicted);
      e.excause == NoException && e.inst.opcode == Jalr
    ensures
      var e := SingleExecute(env, s, predicted);
      e.aluVal == Truncate(env.xlen, Plus(ReadGp(s.regs, e.inst.rs), e.inst.immediate))
  {
    hide ReadGp, CsrReadValue, DecodedCause, Operate, TruncateBits, SignalsOf, FlagsOf, Has, NumRs, NumRt, NumRd, Add;
    var inst := SingleExecute(env, s, predicted).inst;
    JalrSignals(env, inst);
    AluAdds(env.xlen, ReadGp(s.regs, inst.rs).bits, inst.immediate.bits);
  }

  /**
   * What an instruction that neither reads memory nor redirects writes back: a jump its link, any other the
   * ALU's result.
   */
  lemma RetiredResult(env: Env, s: ArchState, predicted: Word)
    requires
      var e := SingleExecute(env, s, predicted);
      && e.excause == NoException && e.signals.regwrite && !e.signals.memread
      && !Redirects(MemoryStage(env, s.memory, s.control, e).interstage)
    ensures
      var e := SingleExecute(env, s, predicted);
      MemoryStage(env, s.memory, s.control, e).interstage.towriteVal
      == if IsJump(e.inst) then Truncate(env.xlen, e.nextInstAddr) else e.aluVal
  {
    hide Plus, Offset, Truncate, AluResult, SignalsOf, DecodedCause, RsValue, CsrReadValue, ControlAfter,
      ReturnAddress, DataAccess, FlagsOf, Has, ComputedNextInstAddr, WritebackValue, FaultCause;
    WrittenBack(env, s, predicted);
    if SingleExecute(env, s, predicted).inst.opcode.Csr? {
      SilentCsrAlu(env, s, predicted);
    }
  }

  // ---- the invariant across a step that does not redirect

  lemma SameFetch(env: Env, c: Control, d: Control, a: Word, predicted: Word)
    requires SeesSame(c, d)
    ensures FetchAt(env, c, a, predicted) == FetchAt(env, d, a, predicted)
  {
  }

  lemma QuietFetchShape(env: Env, p: PipeState)
    requires Structure(env, p) && !Redirects(Out(env, p).interstage)
    ensures FetchShape(env, QuietNext(env, p))
  {
    hide Requested, Static, MemoryStage, Decode, Execute, Writeback, DataHazards, ExecuteOk, OperandsOk, Path,
      DecodeShape, StallRequested;
    NoRedirectKeepsControl(env, p.memory, p.control, p.exMem);
  }

  lemma QuietDecodeShape(env: Env, p: PipeState)
    requires Structure(env, p) && !Redirects(Out(env, p).interstage)
    ensures DecodeShape(env, QuietNext(env, p))
  {
    hide Requested, Static, MemoryStage, Decode, Execute, Writeback, DataHazards, ExecuteOk, OperandsOk, Path,
      StallRequested, Fetch;
    var p' := QuietNext(env, p);
    HazardsKeepInstruction(env.hazardUnit, Out(env, p).interstage, NextExecute(env, p), NextDecode(env, p));
    NoRedirectKeepsControl(env, p.memory, p.control, p.exMem);
    DecodeCopies(env, p'.regs, p'.control, p.ifId);
    if !p.ifId.isValid {
      FlushedFetchDecodesInert(env, p'.regs, p'.control);
    }
  }

  lemma DecodeCopies(env: Env, regs: Registers, c: Control, f: FetchInterstage)
    ensures
      var d := Decode(env, regs, c, f);
      d.isValid == f.isValid && d.inst == f.inst && d.instAddr == f.instAddr
      && d.nextInstAddr == f.nextInstAddr && d.predictedNextInstAddr == f.predictedNextInstAddr
  {
  }

  lemma ExecuteCopies(env: Env, d: DecodeInterstage)
    ensures
      var e := Execute(env, d);
      e.isValid == d.isValid && e.inst == d.inst && e.instAddr == d.instAddr && e.excause == d.excause
      && e.nextInstAddr == d.nextInstAddr && e.predictedNextInstAddr == d.predictedNextInstAddr
      && e.signals == d.signals && e.numRd == d.numRd
  {
  }

  lemma NoRedirectNoException(env: Env, m: Memory, c: Control, e: ExecuteInterstage)
    requires !Redirects(MemoryStage(env, m, c, e).interstage)
    ensures e.excause == NoException
    ensures MemoryStage(env, m, c, e).interstage.computedNextInstAddr == e.predictedNextInstAddr
    ensures MemoryStage(env, m, c, e).interstage.regwrite == e.signals.regwrite
    ensures MemoryStage(env, m, c, e).interstage.numRd == e.numRd
  {
    hide DataAccess, ControlAfter, WritebackValue, ReturnAddress, ComputedNextInstAddr;
  }

  lemma QuietPath(env: Env, p: PipeState)
    requires Structure(env, p) && !Redirects(Out(env, p).interstage)
    ensures Path(QuietNext(env, p))
  {
    hide MemoryStage, Decode, Execute, Writeback, DataHazards, ExecuteOk, OperandsOk;
    var p' := QuietNext(env, p);
    HazardsKeepInstruction(env.hazardUnit, Out(env, p).interstage, NextExecute(env, p), NextDecode(env, p));
    DecodeCopies(env, p'.regs, p'.control, p.ifId);
    ExecuteCopies(env, p.idEx);
    NoRedirectNoException(env, p.memory, p.control, p.exMem);
    if Stalls(env, p) {
      StallNeedsInstruction(env, p);
    }
  }

  lemma StallNeedsInstruction(env: Env, p: PipeState)
    requires Structure(env, p) && Stalls(env, p)
    requires !Redirects(Out(env, p).interstage)
    ensures p.ifId.isValid
  {
    hide MemoryStage, Decode, Execute, Writeback;
    if !p.ifId.isValid {
      NoRedirectKeepsControl(env, p.memory, p.control, p.exMem);
      FlushedFetchDecodesInert(env, Writeback(p.regs, p.memWb), Out(env, p).control);
    }
  }

  lemma QuietCommitPc(env: Env, p: PipeState)
    requires Structure(env, p) && !Redirects(Out(env, p).interstage)
    ensures CommitPc(QuietNext(env, p)) == BehindExecute(p)
  {
    hide MemoryStage, Decode, Execute, Writeback, DataHazards, HandleException, MaskOk, FetchShape, DecodeShape;
    var p' := QuietNext(env, p);
    HazardsKeepInstruction(env.hazardUnit, Out(env, p).interstage, NextExecute(env, p), NextDecode(env, p));
    DecodeCopies(env, p'.regs, p'.control, p.ifId);
    ExecuteCopies(env, p.idEx);
    NoRedirectNoException(env, p.memory, p.control, p.exMem);
  }

  lemma QuietReturnsTo(env: Env, p: PipeState)
    requires Structure(env, p) && !Redirects(Out(env, p).interstage)
    ensures AfterExMem(env, p).pc == BehindExecute(p)
  {
    hide MemoryStage, Decode, Execute, Writeback, HandleException, MaskOk, FetchShape, DecodeShape, Retire;
    NoRedirectNoException(env, p.memory, p.control, p.exMem);
    AfterExMemFields(env, p);
  }

  /** A step that does not redirect moves the abstract state past the instruction in EX/MEM, if there is one. */
  lemma QuietAbs(env: Env, p: PipeState)
    requires Structure(env, p) && !Redirects(Out(env, p).interstage)
    ensures Abs(QuietNext(env, p)) == AfterExMem(env, p)
  {
    hide MemoryStage, Decode, Execute, Writeback, DataHazards, ExecuteOk, OperandsOk, HandleException, Path, Retire,
      AfterExMem, Shapes, CommitPc, Fetch, StallRequested;
    QuietCommitPc(env, p);
    QuietReturnsTo(env, p);
    AfterExMemFields(env, p);
  }

  lemma StaleOperandsIgnored(env: Env, a: DecodeInterstage, b: DecodeInterstage)
    requires SameButOperands(a, b) && a.excause != NoException
    ensures SameEffect(Execute(env, a), Execute(env, b))
  {
    hide Plus;
  }

  lemma QuietExecuteOk(env: Env, p: PipeState)
    requires Structure(env, p) && OperandsOk(env, p) && !Redirects(Out(env, p).interstage)
    ensures ExecuteOk(env, QuietNext(env, p))
  {
    hide Requested, Static, MemoryStage, Decode, Execute, Writeback, DataHazards, HandleException, Path, Retire,
      AfterExMem, Fetch, StallRequested, FetchShape;
    var p', a := QuietNext(env, p), AfterExMem(env, p);
    QuietAbs(env, p);
    ExecuteCopies(env, p.idEx);
    if p.idEx.isValid {
      AfterExMemFields(env, p);
      NoRedirectKeepsControl(env, p.memory, p.control, p.exMem);
      SameFetch(env, p.control, a.control, p.idEx.instAddr, p.idEx.predictedNextInstAddr);
      if p.idEx.excause != NoException {
        DecodeStatic(env, p.regs, a.regs, p.control, a.control, FetchOf(env, p.control, p.idEx));
        StaleOperandsIgnored(env, p.idEx, Decode(env, a.regs, a.control, FetchOf(env, p.control, p.idEx)));
      }
    }
  }

  /** Decode reads the same operands from `r2` as from `r1` when the needed registers agree. */
  lemma SameOperands(env: Env, r1: Registers, r2: Registers, c1: Control, c2: Control, f: FetchInterstage)
    requires c1.privilege == c2.privilege && c1.checkMask == c2.checkMask
    requires SignalsOf(env, f.inst).csr ==> c1.csrs == c2.csrs
    requires SignalsOf(env, f.inst).aluReqRs && !IsCsrImmediate(f.inst) ==>
               ReadGp(r1, NumRs(f.inst)) == ReadGp(r2, NumRs(f.inst))
    requires SignalsOf(env, f.inst).aluReqRt ==> ReadGp(r1, NumRt(f.inst)) == ReadGp(r2, NumRt(f.inst))
    ensures Decode(env, r1, c1, f) == Decode(env, r2, c2, f)
  {
    hide FlagsOf, Has, NumRs, NumRt, NumRd, Illegal, XretPrivilege, AluOf, AccessOf;
    UnneededRegisterIsZero(f.inst);
  }

  lemma NeededRegisters(env: Env, inst: Instruction)
    ensures !SignalsOf(env, inst).aluReqRs ==> NumRs(inst) == 0
    ensures !SignalsOf(env, inst).aluReqRt ==> NumRt(inst) == 0
  {
    hide FlagsOf, Has, NumRs, NumRt;
    UnneededRegisterIsZero(inst);
  }

  /** Stalling hazard unit: with no hazard, nothing in flight writes the operands. */
  lemma StallOperands(env: Env, p: PipeState)
    requires env.hazardUnit == HuStall && Inv(env, p) && !Redirects(Out(env, p).interstage)
    requires NextExecute(env, p).excause == NoException && NextDecode(env, p).excause == NoException && !Stalls(env, p)
    ensures OperandsOk(env, QuietNext(env, p))
  {
    hide MemoryStage, Decode, Execute, HandleException, Path, Retire, AfterExMem, Fetch, DecodeShape, SignalsOf, NumRs,
      NumRt, ExecuteOk;
    var p' := QuietNext(env, p);
    var out' := MemoryStage(env, p'.memory, p'.control, p'.exMem);
    if p'.idEx.isValid && !Redirects(out'.interstage) {
      var a' := AfterExMem(env, p');
      QuietAfter(env, p);
      assert p'.idEx == NextDecode(env, p);
      DecodeNumbers(env, p'.regs, p'.control, p.ifId);
      ReadAfterTwo(p'.regs, p'.memWb, out'.interstage, NumRs(p.ifId.inst));
      ReadAfterTwo(p'.regs, p'.memWb, out'.interstage, NumRt(p.ifId.inst));
      ReadZero(p'.regs, a'.regs);
      SameOperands(env, p'.regs, a'.regs, p'.control, a'.control, p.ifId);
    }
  }

  lemma ReadZero(r1: Registers, r2: Registers)
    ensures ReadGp(r1, 0) == ReadGp(r2, 0)
  {
  }

  lemma DecodeNumbers(env: Env, regs: Registers, c: Control, f: FetchInterstage)
    ensures
      var d := Decode(env, regs, c, f);
      && d.signals == SignalsOf(env, f.inst) && d.numRs == NumRs(f.inst) && d.numRt == NumRt(f.inst)
      && d.isValid == f.isValid
      && d.instAddr == f.instAddr && d.predictedNextInstAddr == f.predictedNextInstAddr
  {
    hide SignalsOf, NumRs, NumRt, NumRd, RsValue, DecodedCause, CsrReadValue;
  }

  /** After a quiet step, what the next instruction to retire leaves for the one behind it. */
  lemma QuietAfter(env: Env, p: PipeState)
    requires Structure(env, p) && !Redirects(Out(env, p).interstage)
    requires !Redirects(Out(env, QuietNext(env, p)).interstage)
    ensures
      var p' := QuietNext(env, p);
      var a', w' := AfterExMem(env, p'), Out(env, p').interstage;
      && a'.regs == Writeback(Writeback(p'.regs, p'.memWb), w')
      && w'.regwrite == p'.exMem.signals.regwrite && w'.numRd == p'.exMem.numRd
      && a'.control.privilege == p'.control.privilege && a'.control.checkMask == p'.control.checkMask
      && SeesSame(a'.control, p'.control)
      && (!p'.exMem.isValid ==> a'.control == p'.control)
      && (p.ifId.isValid ==> p.ifId == FetchAt(env, a'.control, p.ifId.instAddr, p.ifId.predictedNextInstAddr))
  {
    hide MemoryStage, Decode, Execute, HandleException, Retire, Fetch, SignalsOf, NumRs, NumRt, DataHazards, ExecuteOk,
      OperandsOk, Path, StallRequested, Writeback, QuietNext, DecodeShape;
    var p' := QuietNext(env, p);
    QuietFetchShape(env, p);
    QuietDecodeShape(env, p);
    QuietExecuteShape(env, p);
    AfterExMemFields(env, p');
    NoRedirectKeepsControl(env, p.memory, p.control, p.exMem);
    NoRedirectKeepsControl(env, p'.memory, p'.control, p'.exMem);
    NoRedirectNoException(env, p'.memory, p'.control, p'.exMem);
    QuietControl(env, p);
    SameFetch(env, p.control, AfterExMem(env, p').control, p.ifId.instAddr, p.ifId.predictedNextInstAddr);
  }

  lemma SameCause(inst: Instruction, fetched: ExceptionCause, c: Control, d: Control)
    requires c.privilege == d.privilege && c.checkMask == d.checkMask
    ensures DecodedCause(inst, fetched, c) == DecodedCause(inst, fetched, d)
  {
    hide FlagsOf, Has, Illegal;
  }

  lemma DecodedStatically(env: Env, regs: Registers, c: Control, f: FetchInterstage)
    ensures
      var d := Decode(env, regs, c, f);
      d.inst == f.inst && d.instAddr == f.instAddr && d.signals == SignalsOf(env, f.inst)
      && d.excause == DecodedCause(f.inst, f.excause, c)
  {
    hide SignalsOf, DecodedCause, RsValue, CsrReadValue;
  }

  lemma StaysStatic(env: Env, p: PipeState, c: Control)
    requires p.idEx.isValid && DecodeShape(env, p)
    requires SeesSame(c, p.control) && c.checkMask == p.control.checkMask
    ensures Static(env, c, Execute(env, p.idEx))
  {
    hide Decode, Execute, SignalsOf, DecodedCause, Requested;
    var f := FetchOf(env, p.control, p.idEx);
    DecodedStatically(env, p.regs, p.control, f);
    ExecuteCopies(env, p.idEx);
    SameCause(f.inst, f.excause, c, p.control);
  }

  lemma QuietExecuteShape(env: Env, p: PipeState)
    requires Structure(env, p) && !Redirects(Out(env, p).interstage)
    ensures ExecuteShape(env, QuietNext(env, p))
  {
    hide MemoryStage, Decode, Execute, Writeback, DataHazards, Path, StallRequested, Fetch, FetchShape, Static,
      Requested, MaskOk;
    ExecuteCopies(env, p.idEx);
    if p.idEx.isValid {
      NoRedirectKeepsControl(env, p.memory, p.control, p.exMem);
      StaysStatic(env, p, Out(env, p).control);
    }
  }

  lemma QuietControl(env: Env, p: PipeState)
    ensures QuietNext(env, p).control == Out(env, p).control
  {
    hide MemoryStage, Decode, Execute, Writeback, DataHazards, StallRequested, Fetch;
  }

  lemma DecodeElsewhere(env: Env, r1: Registers, r2: Registers, c1: Control, c2: Control, f: FetchInterstage)
    requires c1.privilege == c2.privilege && c1.checkMask == c2.checkMask && !IsCsrImmediate(f.inst)
    requires SignalsOf(env, f.inst).csr ==> c1.csrs == c2.csrs
    ensures Decode(env, r2, c2, f)
            == Decode(env, r1, c1, f).(valRs := ReadGp(r2, NumRs(f.inst)), valRt := ReadGp(r2, NumRt(f.inst)))
  {
    hide FlagsOf, Has, NumRs, NumRt, NumRd, Illegal, XretPrivilege, AluOf, AccessOf, ReadGp;
    UnneededRegisterIsZero(f.inst);
  }

  /** What forwarding puts into the operands: EX/MEM before MEM/WB before the register file. */
  function Bypassed(w: MemoryInterstage, e: ExecuteInterstage, needed: bool, r: RegisterId, read: Word): Word {
    if needed && r != 0 && e.signals.regwrite && e.numRd == r then e.aluVal
    else if needed && r != 0 && w.regwrite && w.numRd == r then w.towriteVal
    else read
  }

  lemma ForwardingResult(w: MemoryInterstage, e: ExecuteInterstage, d: DecodeInterstage)
    requires !DataHazards(HuStallForward, w, e, d).0
    ensures DataHazards(HuStallForward, w, e, d).1
            == d.(valRs := Bypassed(w, e, d.signals.aluReqRs, d.numRs, d.valRs),
                  valRt := Bypassed(w, e, d.signals.aluReqRt, d.numRt, d.valRt))
    ensures HazardWith(e.signals.regwrite, e.numRd, d) ==> !e.signals.memread
  {
  }

  lemma ExMemResult(env: Env, p: PipeState)
    requires Structure(env, p) && ExecuteOk(env, p) && OperandsOk(env, p) && !Redirects(Out(env, p).interstage)
    requires !Redirects(Out(env, QuietNext(env, p)).interstage)
    ensures
      var p' := QuietNext(env, p);
      p'.exMem.signals.regwrite && p'.exMem.numRd != 0 && !p'.exMem.signals.memread ==>
        Out(env, p').interstage.towriteVal
        == if IsJump(p'.exMem.inst) then Truncate(env.xlen, p'.exMem.nextInstAddr) else p'.exMem.aluVal
  {
    hide MemoryStage, Decode, Execute, HandleException, Retire, Fetch, SignalsOf, NumRs, NumRt, DataHazards,
      OperandsOk, Path, StallRequested, Writeback, DecodeShape, FetchShape, Truncate;
    var p' := QuietNext(env, p);
    QuietExecuteShape(env, p);
    QuietExecuteOk(env, p);
    ExecuteCopies(env, p.idEx);
    NoRedirectNoException(env, p'.memory, p'.control, p'.exMem);
    var e := p'.exMem;
    if e.isValid && e.signals.regwrite && !e.signals.memread {
      assert e == SingleExecute(env, Abs(p'), e.predictedNextInstAddr);
      RetiredResult(env, Abs(p'), e.predictedNextInstAddr);
    }
  }

  /** The ALU result of a jump, its target, was forwarded where the address it links was wanted. */
  predicate MisforwardsLink(env: Env, p: PipeState) {
    IsJump(p.exMem.inst) && HazardWith(p.exMem.signals.regwrite, p.exMem.numRd, p.idEx)
    && p.exMem.aluVal != Truncate(env.xlen, p.exMem.nextInstAddr)
  }

  /** A register in flight was forwarded into the immediate of a CSR instruction. */
  predicate ClobbersImmediate(p: PipeState) {
    IsCsrImmediate(p.idEx.inst) && HazardWith(p.memWb.regwrite, p.memWb.numRd, p.idEx)
    && p.memWb.towriteVal != Word(p.idEx.numRs as bv64)
  }

  /** A step of the forwarding core that moves an instruction from ID to EX and is not undone by the next one. */
  predicate Forwards(env: Env, p: PipeState) {
    && env.hazardUnit == HuStallForward && Structure(env, p) && ExecuteOk(env, p) && OperandsOk(env, p)
    && !Redirects(Out(env, p).interstage) && !Redirects(Out(env, QuietNext(env, p)).interstage)
    && NextExecute(env, p).excause == NoException && NextDecode(env, p).excause == NoException && !Stalls(env, p)
    && p.ifId.isValid
  }

  lemma ForwardsPlain(env: Env, p: PipeState)
    requires Forwards(env, p) && !IsCsrImmediate(p.ifId.inst)
    ensures OperandsOk(env, QuietNext(env, p)) <==> !MisforwardsLink(env, QuietNext(env, p))
  {
    hide MemoryStage, Decode, Execute, HandleException, Structure, Retire, AfterExMem, Fetch, SignalsOf, NumRs, NumRt,
      ExecuteOk, DataHazards, Truncate;
    var p' := QuietNext(env, p);
    var out' := Out(env, p');
    var a', d := AfterExMem(env, p'), NextDecode(env, p);
    QuietAfter(env, p);
    ExMemResult(env, p);
    ForwardingResult(p'.memWb, p'.exMem, d);
    DecodeNumbers(env, p'.regs, p'.control, p.ifId);
    ReadAfterTwo(p'.regs, p'.memWb, out'.interstage, NumRs(p.ifId.inst));
    ReadAfterTwo(p'.regs, p'.memWb, out'.interstage, NumRt(p.ifId.inst));
    NeededRegisters(env, p.ifId.inst);
    ReadZero(p'.regs, a'.regs);
    DecodeElsewhere(env, p'.regs, a'.regs, p'.control, a'.control, p.ifId);
    DecodeElsewhere(env, p'.regs, p'.regs, p'.control, p'.control, p.ifId);
  }

  lemma CsrImmediateOperands(env: Env, inst: Instruction)
    requires IsCsrImmediate(inst)
    ensures SignalsOf(env, inst).aluReqRs && !SignalsOf(env, inst).aluReqRt && SignalsOf(env, inst).csr
    ensures NumRs(inst) == inst.rs && NumRt(inst) == 0
    ensures Has(FlagsOf(inst.opcode), IMF_ALU_RS_ID)
  {
  }

  lemma ForwardsImmediate(env: Env, p: PipeState)
    requires Forwards(env, p) && IsCsrImmediate(p.ifId.inst)
    ensures OperandsOk(env, QuietNext(env, p)) <==> !ClobbersImmediate(QuietNext(env, p))
    ensures !QuietNext(env, p).exMem.isValid
  {
    hide MemoryStage, Decode, Execute, HandleException, Structure, Retire, AfterExMem, Fetch, SignalsOf, NumRs, NumRt,
      ExecuteOk, DataHazards, FlagsOf, Has, Static, Requested, SeesSame, MaskOk, Truncate, WriteGp;
    var p' := QuietNext(env, p);
    var a', d := AfterExMem(env, p'), NextDecode(env, p);
    QuietAfter(env, p);
    QuietExecuteShape(env, p);
    ForwardingResult(p'.memWb, p'.exMem, d);
    DecodeNumbers(env, p'.regs, p'.control, p.ifId);
    DecodeCopies(env, p'.regs, p'.control, p.ifId);
    CsrImmediateOperands(env, p.ifId.inst);
    SameOperands(env, p'.regs, a'.regs, p'.control, a'.control, p.ifId);
    ImmediateOperand(env, p'.regs, p'.control, p.ifId);
  }

  lemma ImmediateOperand(env: Env, regs: Registers, c: Control, f: FetchInterstage)
    requires IsCsrImmediate(f.inst)
    ensures Decode(env, regs, c, f).valRs == Word(NumRs(f.inst) as bv64)
  {
    hide SignalsOf, NumRs, NumRt, NumRd, DecodedCause, CsrReadValue, FlagsOf, Has;
    CsrImmediateOperands(env, f.inst);
  }

  /**
   * Exactly when the forwarding unit hands EX the operands the older instructions will have written:
   * always, except for the link of a jump that was predicted to its target and for CSR immediates.
   */
  lemma ForwardingExact(env: Env, p: PipeState)
    requires Forwards(env, p)
    ensures
      var p' := QuietNext(env, p);
      OperandsOk(env, p') <==> !MisforwardsLink(env, p') && !ClobbersImmediate(p')
  {
    hide MemoryStage, Decode, Execute, Structure, Retire, AfterExMem, Fetch, ExecuteOk, OperandsOk, DataHazards,
      Truncate, Writeback;
    var p' := QuietNext(env, p);
    HazardsKeepInstruction(env.hazardUnit, Out(env, p).interstage, NextExecute(env, p), NextDecode(env, p));
    DecodeCopies(env, p'.regs, p'.control, p.ifId);
    if IsCsrImmediate(p.ifId.inst) {
      ForwardsImmediate(env, p);
      QuietExecuteShape(env, p);
    } else {
      ForwardsPlain(env, p);
    }
  }

  lemma NotClobbered(env: Env, p: PipeState)
    requires p.idEx.isValid && DecodeShape(env, p) && ImmediateSafe(p.idEx.inst)
    ensures !ClobbersImmediate(p)
  {
    hide Decode, SignalsOf, NumRs, NumRt, FlagsOf, Has;
    DecodeNumbers(env, p.regs, p.control, FetchOf(env, p.control, p.idEx));
    DecodeCopies(env, p.regs, p.control, FetchOf(env, p.control, p.idEx));
    if IsCsrImmediate(p.idEx.inst) {
      CsrImmediateOperands(env, p.idEx.inst);
    }
  }

  /** Where a jump that was predicted right goes. */
  lemma PredictedTarget(env: Env, s: ArchState, predicted: Word)
    requires
      var e := SingleExecute(env, s, predicted);
      && e.excause == NoException && IsJump(e.inst)
      && !Redirects(MemoryStage(env, s.memory, s.control, e).interstage)
    ensures
      var e := SingleExecute(env, s, predicted);
      MayJumpTo(env.xlen, e.inst, s.pc, predicted) && e.aluVal == Truncate(env.xlen, predicted)
  {
    hide MemoryStage, SingleExecute, Truncate, Plus, ReadGp;
    var e := SingleExecute(env, s, predicted);
    JumpTarget(env, s, predicted);
    NoRedirectNoException(env, s.memory, s.control, e);
    SingleExecuteCopies(env, s, predicted);
    if e.inst.opcode == Jal {
      JalAlu(env, s, predicted);
    } else {
      JalrAlu(env, s, predicted);
      AluTruncates(env, Decode(env, s.regs, s.control, FetchAt(env, s.control, s.pc, predicted)));
      ZeroPlus(s.regs, e.inst.immediate);
    }
  }

  lemma ZeroPlus(regs: Registers, w: Word)
    ensures Plus(ReadGp(regs, 0), w) == w
  {
  }

  lemma SingleExecuteCopies(env: Env, s: ArchState, predicted: Word)
    ensures
      var e := SingleExecute(env, s, predicted);
      && e == Execute(env, Decode(env, s.regs, s.control, FetchAt(env, s.control, s.pc, predicted)))
      && e.aluVal == AluResult(env, Decode(env, s.regs, s.control, FetchAt(env, s.control, s.pc, predicted)))
      && e.predictedNextInstAddr == predicted && e.nextInstAddr == Offset(s.pc, 4) && e.instAddr == s.pc
      && e.inst == env.program(s.pc, s.control.privilege, s.control.csrs[SATP]).inst && e.numRd == NumRd(e.inst)
  {
    hide AluResult, RsValue, ReadGp, CsrReadValue, DecodedCause, SignalsOf, NumRs, NumRt, NumRd, Plus;
  }

  lemma JumpOperands(env: Env, inst: Instruction)
    requires IsJump(inst)
    ensures !SignalsOf(env, inst).aluReqRt
            && (SignalsOf(env, inst).aluReqRs ==> inst.opcode == Jalr && NumRs(inst) == inst.rs)
  {
  }

  lemma RegisterNumber(inst: Instruction)
    requires NumRd(inst) != 0
    ensures NumRd(inst) == inst.rd
  {
    hide FlagsOf, Has;
  }

  lemma NotMisforwarded(env: Env, p: PipeState)
    requires Structure(env, p) && ExecuteOk(env, p) && LinksSafe(env, p) && p.idEx.isValid && p.exMem.isValid
    requires !Redirects(Out(env, p).interstage)
    ensures !MisforwardsLink(env, p)
  {
    hide MemoryStage, Decode, SingleExecute, Truncate, SignalsOf, NumRs, NumRt, NumRd, FetchShape, MaskOk, MayJumpTo;
    NoRedirectNoException(env, p.memory, p.control, p.exMem);
    if MisforwardsLink(env, p) {
      var e, predicted := p.exMem, p.exMem.predictedNextInstAddr;
      PredictedTarget(env, Abs(p), predicted);
      SingleExecuteCopies(env, Abs(p), predicted);
      RegisterNumber(e.inst);
      if LoopsUnread(e.inst, e.instAddr, predicted) {
        DecodeNumbers(env, p.regs, p.control, FetchOf(env, p.control, p.idEx));
        DecodeCopies(env, p.regs, p.control, FetchOf(env, p.control, p.idEx));
        JumpOperands(env, e.inst);
      }
    }
  }

  lemma QuietLinks(env: Env, p: PipeState)
    requires Covered(env) && env.hazardUnit == HuStallForward && LinksSafe(env, p)
    ensures LinksSafe(env, QuietNext(env, p))
  {
    hide MemoryStage, Decode, Execute, HandleException, SignalsOf, NumRs, NumRt, DataHazards, Writeback, LinkSafe;
    var p' := QuietNext(env, p);
    HazardsKeepInstruction(env.hazardUnit, Out(env, p).interstage, NextExecute(env, p), NextDecode(env, p));
    DecodeCopies(env, p'.regs, p'.control, p.ifId);
    ExecuteCopies(env, p.idEx);
  }

  lemma ForwardOperands(env: Env, p: PipeState)
    requires Covered(env) && Inv(env, p) && Forwards(env, p)
    ensures OperandsOk(env, QuietNext(env, p))
  {
    hide MemoryStage, Decode, Execute, Retire, AfterExMem, Fetch, ExecuteOk, OperandsOk, DataHazards, QuietNext, Path,
      LinksSafe, ClobbersImmediate, MaskOk;
    var p' := QuietNext(env, p);
    ForwardingExact(env, p);
    QuietStructure(env, p);
    QuietExecuteOk(env, p);
    QuietLinks(env, p);
    QuietDecoded(env, p);
    assert ImmediateSafe(p.ifId.inst) by {
      assert p.ifId.inst == env.program(p.ifId.instAddr, p.control.privilege, p.control.csrs[SATP]).inst;
    }
    NotClobbered(env, p');
    if p'.exMem.isValid {
      NotMisforwarded(env, p');
    }
  }

  lemma QuietDecoded(env: Env, p: PipeState)
    requires Forwards(env, p)
    ensures QuietNext(env, p).idEx.isValid && QuietNext(env, p).idEx.inst == p.ifId.inst
  {
    hide MemoryStage, Decode, Execute, Retire, AfterExMem, Fetch, ExecuteOk, OperandsOk, DataHazards, Structure;
    var p' := QuietNext(env, p);
    HazardsKeepInstruction(env.hazardUnit, Out(env, p).interstage, NextExecute(env, p), NextDecode(env, p));
    DecodeCopies(env, p'.regs, p'.control, p.ifId);
  }

  lemma BubbleOperands(env: Env, p: PipeState)
    requires NextExecute(env, p).excause != NoException || NextDecode(env, p).excause != NoException || Stalls(env, p)
             || !p.ifId.isValid
    ensures OperandsOk(env, QuietNext(env, p))
  {
    hide MemoryStage, Decode, Execute, AfterExMem, DataHazards, Writeback;
    HazardsKeepInstruction(env.hazardUnit, Out(env, p).interstage, NextExecute(env, p), NextDecode(env, p));
    DecodeCopies(env, QuietNext(env, p).regs, QuietNext(env, p).control, p.ifId);
  }

  lemma QuietOperands(env: Env, p: PipeState)
    requires Covered(env) && Inv(env, p) && !Redirects(Out(env, p).interstage)
    ensures OperandsOk(env, QuietNext(env, p))
  {
    hide MemoryStage, Decode, Execute, AfterExMem, DataHazards, Writeback, Inv, Fetch, Structure, ExecuteOk;
    if NextExecute(env, p).excause != NoException || NextDecode(env, p).excause != NoException || Stalls(env, p)
      || !p.ifId.isValid {
      BubbleOperands(env, p);
    } else if env.hazardUnit == HuStall {
      StallOperands(env, p);
    } else if !Redirects(Out(env, QuietNext(env, p)).interstage) {
      assert Forwards(env, p) by { InvParts(env, p); }
      ForwardOperands(env, p);
    }
  }

  lemma InvParts(env: Env, p: PipeState)
    requires Inv(env, p)
    ensures Structure(env, p) && ExecuteOk(env, p) && OperandsOk(env, p)
  {
  }

  lemma QuietStructure(env: Env, p: PipeState)
    requires Structure(env, p) && !Redirects(Out(env, p).interstage)
    ensures Structure(env, QuietNext(env, p))
  {
    hide QuietNext, MaskOk, FetchShape, DecodeShape, Path, MemoryStage;
    QuietControl(env, p);
    MemoryKeepsMask(env, p.memory, p.control, p.exMem);
    QuietFetchShape(env, p);
    QuietDecodeShape(env, p);
    QuietExecuteShape(env, p);
    QuietPath(env, p);
  }

  lemma QuietInv(env: Env, p: PipeState)
    requires Covered(env) && Inv(env, p) && !Redirects(Out(env, p).interstage)
    ensures Inv(env, QuietNext(env, p))
  {
    hide QuietNext, Structure, ExecuteOk, OperandsOk, LinksSafe, MemoryStage;
    QuietStructure(env, p);
    QuietExecuteOk(env, p);
    QuietOperands(env, p);
    if env.hazardUnit == HuStallForward {
      QuietLinks(env, p);
    }
  }

  predicate Drained(p: PipeState) {
    p.ifId == FLUSHED_FETCH && p.idEx == FLUSHED_DECODE && p.exMem == FLUSHED_EXECUTE && !p.stopIf
  }

  lemma DrainedInv(env: Env, p: PipeState)
    requires Drained(p) && MaskOk(env, p.control)
    ensures Inv(env, p)
  {
    hide MaskOk, MemoryStage;
  }

  lemma ExecuteIgnoresPrediction(env: Env, s: ArchState, g: Word, h: Word)
    ensures SingleExecute(env, s, g) == SingleExecute(env, s, h).(predictedNextInstAddr := g)
  {
    hide Operate, Plus, RsValue, ReadGp, CsrReadValue, DecodedCause, SignalsOf, NumRs, NumRt, NumRd, TruncateBits;
  }

  lemma MemoryIgnoresPrediction(env: Env, m: Memory, c: Control, e: ExecuteInterstage, g: Word)
    ensures
      var v, w := MemoryStage(env, m, c, e), MemoryStage(env, m, c, e.(predictedNextInstAddr := g));
      v.memory == w.memory && v.control == w.control && v.interstage.(predictedNextInstAddr := g) == w.interstage
  {
    hide SpecialAccess, RegularAccess, WriteInternal, ExceptionReturn, Truncate, SetCurrentPrivilege;
  }

  /** The single-cycle core's step does not depend on what its predictor said. */
  lemma PredictionIrrelevant(env: Env, s: ArchState, g: Word, h: Word)
    ensures SingleStep(env, s, g) == SingleStep(env, s, h)
  {
    hide HandleException, MemoryStage, SingleExecute;
    var e := SingleExecute(env, s, h);
    var v := MemoryStage(env, s.memory, s.control, e);
    var w := MemoryStage(env, s.memory, s.control, e.(predictedNextInstAddr := g));
    ExecuteIgnoresPrediction(env, s, g, h);
    MemoryIgnoresPrediction(env, s.memory, s.control, e, g);
    HandlerIgnoresResult(env, v.control, v.interstage, w.interstage);
  }

  // ---------------------------------------------------------------- main theorems

  /** A step that flushes retires the instruction in EX/MEM and leaves nothing else in flight. */
  lemma DrainingStep(env: Env, p: PipeState)
    requires Structure(env, p) && Redirects(Out(env, p).interstage)
    ensures MaskOk(env, PipeStep(env, p).control) && Drained(PipeStep(env, p)) && p.exMem.isValid
    ensures Abs(PipeStep(env, p)) == Retire(env, Abs(p), p.exMem)
  {
    hide MemoryStage, HandleException, PipeStep, MaskOk, FetchShape, DecodeShape, Path, Writeback;
    var out := Out(env, p);
    if !p.exMem.isValid {
      InertMemory(env, p.memory, p.control, p.exMem);
    }
    AfterExMemFields(env, p);
    MemoryKeepsMask(env, p.memory, p.control, p.exMem);
    if out.interstage.excause != NoException {
      ExceptionDrains(env, p);
      HandlerKeepsMask(env, out.control, out.interstage);
    } else {
      RedirectDrains(env, p);
    }
  }

  /**
   * In every configuration, even without a hazard unit: the structure is kept, and a cycle changes the
   * architectural state by what the instruction in EX/MEM does, if there is one, and by nothing else.
   */
  lemma StructureStep(env: Env, p: PipeState)
    requires Structure(env, p)
    ensures Structure(env, PipeStep(env, p))
    ensures Abs(PipeStep(env, p)) == AfterExMem(env, p)
  {
    hide MemoryStage, Retire, PipeStep, QuietNext, MaskOk, Shapes, Path, Inv;
    if Redirects(Out(env, p).interstage) {
      DrainingStep(env, p);
      DrainedInv(env, PipeStep(env, p));
      InvParts(env, PipeStep(env, p));
    } else {
      QuietStep(env, p);
      QuietAbs(env, p);
      QuietStructure(env, p);
    }
  }

  lemma {:induction false} StructureRun(env: Env, p: PipeState, cycles: nat)
    requires Structure(env, p)
    ensures Structure(env, PipeRun(env, p, cycles))
  {
    hide PipeStep, Structure;
    if cycles > 0 {
      StructureRun(env, p, cycles - 1);
      StructureStep(env, PipeRun(env, p, cycles - 1));
    }
  }

  /**
   * One cycle of the pipelined core: either no instruction passes the memory stage and the
   * architectural state stays, or exactly one does and it takes the single-cycle core's step.
   */
  lemma StepRefines(env: Env, p: PipeState)
    requires Covered(env) && Inv(env, p)
    ensures Inv(env, PipeStep(env, p))
    ensures Abs(PipeStep(env, p))
            == if p.exMem.isValid then SingleStep(env, Abs(p), p.exMem.predictedNextInstAddr) else Abs(p)
  {
    hide MemoryStage, Retire, HandleException, PipeStep, QuietNext, SingleExecute, Structure, OperandsOk, LinksSafe;
    StructureStep(env, p);
    if p.exMem.isValid {
      SameEffectRetires(env, Abs(p), p.exMem, SingleExecute(env, Abs(p), p.exMem.predictedNextInstAddr));
    }
    if Redirects(Out(env, p).interstage) {
      DrainingStep(env, p);
      DrainedInv(env, PipeStep(env, p));
    } else {
      QuietStep(env, p);
      QuietInv(env, p);
    }
  }

  lemma {:induction false} SingleRunExtends(env: Env, s: ArchState, cycle: nat, steps: nat, g: Word)
    ensures SingleRun(env, s, cycle, steps + 1) == SingleStep(env, SingleRun(env, s, cycle, steps), g)
    decreases steps
  {
    hide SingleStep;
    if steps == 0 {
      PredictionIrrelevant(env, s, PredictAt(env, s, cycle + 1), g);
    } else {
      SingleRunExtends(env, SingleStep(env, s, PredictAt(env, s, cycle + 1)), cycle + 1, steps - 1, g);
    }
  }

  /**
   * After every number of cycles the pipelined core is where the single-cycle core is after as many steps as
   * instructions passed.
   */
  lemma {:induction false} RunRefines(env: Env, p: PipeState, cycles: nat)
    requires Covered(env) && Inv(env, p)
    ensures Inv(env, PipeRun(env, p, cycles))
    ensures Abs(PipeRun(env, p, cycles)) == SingleRun(env, Abs(p), 0, Passed(env, p, cycles))
  {
    hide PipeStep, SingleStep, Abs, Inv;
    if cycles > 0 {
      var q := PipeRun(env, p, cycles - 1);
      RunRefines(env, p, cycles - 1);
      StepRefines(env, q);
      SingleRunExtends(env, Abs(p), 0, Passed(env, p, cycles - 1), q.exMem.predictedNextInstAddr);
    }
  }

  lemma ResetInv(env: Env, s: ArchState)
    requires MaskOk(env, s.control)
    ensures Inv(env, PipeReset(s)) && Abs(PipeReset(s)) == s
  {
    hide MaskOk, Inv;
    DrainedInv(env, PipeReset(s));
  }

  /**
   * The main refinement: from reset, for every program, every number of cycles and every predictor the
   * configuration allows.
   */
  lemma PipelinedRefinesSingle(env: Env, s: ArchState, cycles: nat)
    requires Covered(env) && MaskOk(env, s.control)
    ensures Abs(PipeRun(env, PipeReset(s), cycles)) == SingleRun(env, s, 0, Passed(env, PipeReset(s), cycles))
  {
    hide *;
    ResetInv(env, s);
    RunRefines(env, PipeReset(s), cycles);
  }
}
