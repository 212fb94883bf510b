/**
 * The two conditions the forwarding core needs are needed: a jump predicted to its target, and a CSR
 * immediate that names a register in flight, each make it leave the single-cycle core's path.
 */
module ForwardingLimits {
  import opened Words
  import Numbers
  import opened Alu
  import opened MachineDefs
  import opened CsrFunctions
  import opened InstructionSet
  import opened Stages
  import opened Refinement
  import opened Progress

  /** Whether the pipelined core is where the single-cycle core is after as many steps as instructions passed. */
  ghost predicate InStep(env: Env, p: PipeState, cycles: nat) {
    Abs(PipeRun(env, p, cycles)) == SingleRun(env, Abs(p), 0, Passed(env, p, cycles))
  }

  // ---------------------------------------------------------------- filling the pipeline

  lemma NoHazardFromBubbles(hu: HazardUnit, w: MemoryInterstage, e: ExecuteInterstage, d: DecodeInterstage)
    requires (w.regwrite ==> w.numRd == 0) && (e.signals.regwrite ==> e.numRd == 0)
    ensures DataHazards(hu, w, e, d) == (false, d)
  {
  }

  /** A cycle in which only bubbles are ahead of the instruction in IF/ID. */
  lemma FillingStep(env: Env, p: PipeState)
    requires Structure(env, p) && !p.exMem.isValid && !p.idEx.isValid && NextDecode(env, p).excause == NoException
    ensures
      var p' := PipeStep(env, p);
      && p'.regs == Writeback(p.regs, p.memWb) == Writeback(p'.regs, p'.memWb)
      && p'.memory == p.memory && p'.control == p.control
      && p'.idEx == Decode(env, p'.regs, p.control, p.ifId) && InertExecute(p'.exMem)
      && p'.ifId == Fetch(env, p.control, p.pc, p.cycleCount + 1, false) && p'.pc == p'.ifId.predictedNextInstAddr
      && p'.cycleCount == p.cycleCount + 1
  {
    hide MemoryStage, Decode, Execute, DataHazards, Fetch, StallRequested, PipeStep;
    InertMemory(env, p.memory, p.control, p.exMem);
    ExecuteCopies(env, p.idEx);
    NoHazardFromBubbles(env.hazardUnit, Out(env, p).interstage, NextExecute(env, p), NextDecode(env, p));
    NoStallBehindBubbles(env, p);
    QuietStep(env, p);
  }

  /** A drained pipeline about to fetch `inst`, which is legal and followed by what is at `next`. */
  predicate Starts(env: Env, p: PipeState, inst: Instruction, next: Word) {
    && Drained(p) && MaskOk(env, p.control)
    && FetchedAt(env, p.control, p.pc) == Fetched(inst, NoException)
    && DecodedCause(inst, NoException, p.control) == NoException
    && env.predict(p.cycleCount + 1, inst, p.pc) == next
  }

  lemma FirstFetched(env: Env, p: PipeState, inst: Instruction, next: Word)
    requires Starts(env, p, inst, next)
    ensures
      var q, s := PipeStep(env, p), Abs(p);
      && Structure(env, q) && Abs(q) == s && q.regs == s.regs && q.memory == p.memory && q.control == p.control
      && q.pc == next
      && !q.idEx.isValid && !q.exMem.isValid && q.ifId == FetchAt(env, p.control, p.pc, next)
      && Writeback(q.regs, q.memWb) == q.regs
  {
    hide MemoryStage, Decode, Execute, PipeStep, Structure, Writeback, DecodedCause, MaskOk;
    DrainedInv(env, p);
    InvParts(env, p);
    StructureStep(env, p);
    FlushedFetchDecodesInert(env, Writeback(p.regs, p.memWb), p.control);
    InertMemory(env, p.memory, p.control, p.exMem);
    FillingStep(env, p);
  }

  lemma DecodedCauseOf(env: Env, regs: Registers, c: Control, f: FetchInterstage)
    ensures Decode(env, regs, c, f).excause == DecodedCause(f.inst, f.excause, c)
  {
    hide SignalsOf, DecodedCause;
  }

  lemma SecondFetched(env: Env, p: PipeState, inst: Instruction, next: Word) returns (g: Word)
    requires Starts(env, p, inst, next)
    ensures
      var q, s, c := PipeStep(env, PipeStep(env, p)), Abs(p), p.control;
      && Structure(env, q) && Abs(q) == s && q.regs == s.regs && q.memory == p.memory && q.control == c
      && InertExecute(q.exMem)
      && q.idEx == Decode(env, s.regs, c, FetchAt(env, c, p.pc, next))
      && q.ifId == FetchAt(env, c, next, g)
  {
    hide MemoryStage, Decode, Execute, PipeStep, Structure, Writeback, DecodedCause, MaskOk;
    var q := PipeStep(env, p);
    FirstFetched(env, p, inst, next);
    BubblePasses(env, q);
    DecodedCauseOf(env, q.regs, q.control, q.ifId);
    FillingStep(env, q);
    StructureStep(env, q);
    g := PipeStep(env, q).ifId.predictedNextInstAddr;
  }

  lemma BubblePasses(env: Env, p: PipeState)
    requires Structure(env, p) && !p.exMem.isValid
    ensures Out(env, p).control == p.control && !Redirects(Out(env, p).interstage)
  {
    hide MemoryStage, FetchShape, DecodeShape, Path;
    InertMemory(env, p.memory, p.control, p.exMem);
  }

  // ---------------------------------------------------------------- a reader right behind a jump

  /** Instructions that add their immediate to a register: addi and jalr. */
  predicate IsAdder(inst: Instruction) {
    inst.opcode == OpImm(ADD, false, false) || inst.opcode == Jalr
  }

  lemma AdderSignals(env: Env, inst: Instruction)
    requires IsAdder(inst)
    ensures
      var g := SignalsOf(env, inst);
      && g.component == BasicAlu(ADD) && g.wOperation == (env.xlen != Xlen64) && !g.aluPc && g.alusrc && !g.csrToAlu
      && !g.aluMod
      && g.aluReqRs && !g.aluReqRt && !g.csr && g.regwrite && !g.memread && g.memctl == AccessNone && !g.xret
      && !g.csrWrite && !g.branchBxx
      && !g.branchJal && g.branchJalr == (inst.opcode == Jalr)
    ensures NumRs(inst) == inst.rs && NumRt(inst) == 0 && NumRd(inst) == inst.rd
  {
  }

  lemma JumpSignals(env: Env, inst: Instruction)
    requires IsJump(inst)
    ensures
      var g := SignalsOf(env, inst);
      !g.memread && g.regwrite && g.memctl == AccessNone && !g.csr && !g.csrWrite && !g.xret && NumRd(inst) == inst.rd
  {
  }

  lemma AlwaysLegal(env: Env, c: Control, inst: Instruction)
    requires MaskOk(env, c) && (IsAdder(inst) || IsJump(inst))
    ensures DecodedCause(inst, NoException, c) == NoException
  {
  }

  /**
   * A drained pipeline about to fetch the jump `j`, whose target `t` is predicted right, with `u` reading the
   * link there.
   */
  predicate ReadsLink(env: Env, p: PipeState, j: Instruction, u: Instruction, t: Word) {
    && env.hazardUnit == HuStallForward && Starts(env, p, j, t)
    && IsJump(j) && j.rd != 0 && IsAdder(u) && u.rs == j.rd && u.rd != 0
    && FetchedAt(env, p.control, t) == Fetched(u, NoException)
    && ComputedNextInstAddr(SingleExecute(env, Abs(p), t)) == t
  }

  /** The instruction in IF/ID is decoded with the ALU result of the one right ahead of it as its operand. */
  lemma BypassStep(env: Env, q: PipeState)
    requires env.hazardUnit == HuStallForward && Structure(env, q) && InertExecute(q.exMem)
    requires q.idEx.excause == NoException && q.idEx.signals.regwrite && !q.idEx.signals.memread && q.idEx.numRd != 0
    requires
      var d := Decode(env, Writeback(q.regs, q.memWb), q.control, q.ifId);
      d.excause == NoException && d.signals.aluReqRs && d.numRs == q.idEx.numRd && !d.signals.aluReqRt && !d.signals.csr
    ensures
      var q', d := PipeStep(env, q), Decode(env, Writeback(q.regs, q.memWb), q.control, q.ifId);
      && q'.memory == q.memory && q'.control == q.control && q'.exMem == Execute(env, q.idEx)
      && q'.idEx == d.(valRs := Execute(env, q.idEx).aluVal)
  {
    hide MemoryStage, Decode, Execute, PipeStep, Structure, Writeback, DataHazards, Fetch;
    InertMemory(env, q.memory, q.control, q.exMem);
    QuietStep(env, q);
    ExecuteCopies(env, q.idEx);
    BypassHazards(Out(env, q).interstage, NextExecute(env, q), NextDecode(env, q));
  }

  lemma BypassHazards(w: MemoryInterstage, e: ExecuteInterstage, d: DecodeInterstage)
    requires e.signals.regwrite && !e.signals.memread && e.numRd != 0 && (w.regwrite ==> w.numRd == 0)
    requires d.signals.aluReqRs && d.numRs == e.numRd && !d.signals.aluReqRt
    ensures DataHazards(HuStallForward, w, e, d) == (false, d.(valRs := e.aluVal))
  {
  }

  /**
   * Three cycles on, the jump is in EX/MEM and the reader of its link in ID/EX, with the jump's target as its
   * operand.
   */
  lemma LinkForwarded(env: Env, p: PipeState, j: Instruction, u: Instruction, t: Word) returns (g: Word)
    requires ReadsLink(env, p, j, u, t)
    ensures
      var q, s, c := PipeStep(env, PipeStep(env, PipeStep(env, p))), Abs(p), p.control;
      var e := SingleExecute(env, s, t);
      && Structure(env, q) && Abs(q) == s && q.memory == s.memory && q.control == c && q.exMem == e
      && q.idEx == Decode(env, s.regs, c, FetchAt(env, c, t, g)).(valRs := e.aluVal)
  {
    hide MemoryStage, Decode, Execute, PipeStep, Structure, Writeback, DecodedCause, MaskOk, SignalsOf, NumRs, NumRt,
      NumRd, ComputedNextInstAddr;
    g := SecondFetched(env, p, j, t);
    var q := PipeStep(env, PipeStep(env, p));
    var s := Abs(p);
    StructureStep(env, q);
    DecodedCauseOf(env, s.regs, s.control, FetchAt(env, s.control, p.pc, t));
    DecodedCauseOf(env, s.regs, s.control, q.ifId);
    AlwaysLegal(env, s.control, u);
    DecodeRegisters(env, s.regs, s.control, q.ifId);
    DecodeRegisters(env, s.regs, s.control, FetchAt(env, s.control, p.pc, t));
    AdderSignals(env, u);
    JumpSignals(env, j);
    BypassStep(env, q);
  }

  lemma DecodeRegisters(env: Env, regs: Registers, c: Control, f: FetchInterstage)
    ensures
      var d := Decode(env, regs, c, f);
      d.signals == SignalsOf(env, f.inst) && d.numRs == NumRs(f.inst) && d.numRd == NumRd(f.inst)
  {
    hide SignalsOf, NumRs, NumRt, NumRd, RsValue, DecodedCause, CsrReadValue;
  }

  lemma PlainOutcome(env: Env, m: Memory, c: Control, e: ExecuteInterstage)
    requires e.excause == NoException && e.signals.memctl == AccessNone && !e.signals.csrWrite && !e.signals.xret
    requires ComputedNextInstAddr(e) == e.predictedNextInstAddr
    ensures !Redirects(MemoryStage(env, m, c, e).interstage)
  {
    hide ComputedNextInstAddr, ControlAfter, ReturnAddress, WritebackValue;
    NoAccess(env, m, c, e);
  }

  lemma JumpPasses(env: Env, p: PipeState, j: Instruction, u: Instruction, t: Word)
    requires ReadsLink(env, p, j, u, t)
    ensures
      var s := Abs(p);
      var e := SingleExecute(env, s, t);
      e.isValid && !Redirects(MemoryStage(env, s.memory, s.control, e).interstage)
  {
    hide MemoryStage, Decode, Execute, Structure, Writeback, DecodedCause, MaskOk, SignalsOf, NumRs, NumRt, NumRd,
      ComputedNextInstAddr, SingleExecute;
    var s := Abs(p);
    SingleExecuteFields(env, s, t);
    DecodedCauseOf(env, s.regs, s.control, FetchAt(env, s.control, s.pc, t));
    AlwaysLegal(env, s.control, j);
    JumpSignals(env, j);
    PlainOutcome(env, s.memory, s.control, SingleExecute(env, s, t));
  }

  /** A quiet cycle and the next: what is in EX/MEM and ID/EX passes the memory stage. */
  lemma TwoPass(env: Env, q: PipeState)
    requires Structure(env, q) && q.exMem.isValid && q.idEx.isValid && !Redirects(Out(env, q).interstage)
    ensures
      var q' := PipeStep(env, q);
      && q'.exMem == Execute(env, q.idEx) && q'.exMem.isValid
      && Abs(PipeStep(env, q')) == Retire(env, Retire(env, Abs(q), q.exMem), q'.exMem)
  {
    hide MemoryStage, Decode, Execute, PipeStep, Structure, Writeback, Retire, DataHazards, Stalls, Fetch;
    QuietStep(env, q);
    StructureStep(env, q);
    StructureStep(env, PipeStep(env, q));
    ExecuteCopies(env, q.idEx);
  }

  /** Five cycles on, both instructions have passed the memory stage, the second with the wrong operand. */
  lemma WrongOperandRetires(env: Env, p: PipeState, j: Instruction, u: Instruction, t: Word) returns (g: Word)
    requires ReadsLink(env, p, j, u, t)
    ensures
      var q, s, c := PipeStep(env, PipeStep(env, PipeStep(env, p))), Abs(p), p.control;
      var e := SingleExecute(env, s, t);
      && q.exMem.isValid && PipeStep(env, q).exMem.isValid
      && Abs(PipeStep(env, PipeStep(env, q)))
         == Retire(env, SingleStep(env, s, t),
                   Execute(env, Decode(env, s.regs, c, FetchAt(env, c, t, g)).(valRs := e.aluVal)))
  {
    hide MemoryStage, Decode, Execute, PipeStep, Structure, Retire, SingleExecute, ReadsLink, Writeback;
    g := LinkForwarded(env, p, j, u, t);
    JumpPasses(env, p, j, u, t);
    DecodeNumbers(env, Abs(p).regs, p.control, FetchAt(env, p.control, t, g));
    TwoPass(env, PipeStep(env, PipeStep(env, PipeStep(env, p))));
  }

  lemma SingleExecuteFields(env: Env, s: ArchState, predicted: Word)
    ensures
      var e := SingleExecute(env, s, predicted);
      var d := Decode(env, s.regs, s.control, FetchAt(env, s.control, s.pc, predicted));
      && e == Execute(env, d) && e.isValid && d.isValid && e.excause == d.excause && e.signals == SignalsOf(env, e.inst)
      && e.predictedNextInstAddr == predicted
      && e.inst == env.program(s.pc, s.control.privilege, s.control.csrs[SATP]).inst
      && e.aluVal == AluResult(env, d) && e.numRd == NumRd(e.inst)
  {
    hide AluResult, RsValue, ReadGp, CsrReadValue, DecodedCause, SignalsOf, NumRs, NumRt, NumRd, Plus;
  }

  lemma AddTwice(a: bv64, k: bv64, i: bv64)
    ensures Add(Add(a, k), i) == Add(a + k, i)
  {
    hide Add;
    AddIsPlus(a, k);
  }

  function Sum(a: bv64, b: bv64, c: bv64): bv64 {
    a + b + c
  }

  lemma AddIsSum(a: bv64, b: bv64, c: bv64)
    ensures Add(a + b, c) == Sum(a, b, c)
  {
  }

  lemma SumSwaps(a: bv64, b: bv64, c: bv64)
    ensures Sum(a, b, c) == Sum(a, c, b) == Sum(b, c, a)
  {
  }

  lemma AddFourLast(a: bv64, i: bv64)
    ensures Add(a + 4, i) == Add(a + i, 4)
  {
    hide Add, Sum;
    AddIsSum(a, 4, i);
    AddIsSum(a, i, 4);
    SumSwaps(a, 4, i);
  }

  lemma AddSwap(a: bv64, i: bv64)
    ensures Add(Add(a, 4), i) == Add(Add(a, i), 4)
  {
    hide Add;
    AddTwice(a, 4, i);
    AddFourLast(a, i);
    AddTwice(a, i, 4);
  }

  lemma LowFourApart(z: bv64)
    ensures Low32(z) != Low32(Add(z, 4))
  {
  }

  lemma FourMore(z: bv64)
    ensures z != Add(z, 4)
  {
  }

  lemma LowOfLowSum(a: bv64, i: bv64)
    ensures Low32(Add(Low32(a), i)) == Low32(Add(a, i))
  {
    hide Add, Low32;
    LowHalvesAdd(a, i);
    LowHalvesAdd(Low32(a), i);
    LowTwice(a);
  }

  /** Adding the same number to an address and to the one four past it gives different results. */
  lemma FourApart(xlen: Xlen, a: Word, i: Word)
    ensures Truncate(xlen, Plus(Truncate(xlen, a), i)) != Truncate(xlen, Plus(Truncate(xlen, Offset(a, 4)), i))
  {
    hide Add, Low32;
    AddSwap(a.bits, i.bits);
    FourMore(Add(a.bits, i.bits));
    LowFourApart(Add(a.bits, i.bits));
    LowOfLowSum(a.bits, i.bits);
    LowOfLowSum(Add(a.bits, 4), i.bits);
  }

  /** The sum an adder computes shows in the architectural state. */
  lemma AdderShows(env: Env, s: ArchState, x: ExecuteInterstage)
    requires IsAdder(x.inst) && x.excause == NoException && x.signals == SignalsOf(env, x.inst)
             && x.numRd == x.inst.rd != 0
    ensures
      var s' := Retire(env, s, x);
      if x.inst.opcode == Jalr then s'.pc == x.aluVal else s'.regs[x.inst.rd] == Truncate(env.xlen, x.aluVal)
  {
    hide ControlAfter, ReturnAddress, Truncate, SignalsOf, NumRs, NumRt, NumRd;
    AdderSignals(env, x.inst);
    NoAccess(env, s.memory, s.control, x);
  }

  lemma AdderSum(env: Env, d: DecodeInterstage)
    requires IsAdder(d.inst) && d.excause == NoException && d.signals == SignalsOf(env, d.inst)
    ensures AluResult(env, d) == Truncate(env.xlen, Plus(d.valRs, d.immediateVal))
  {
    hide Operate, TruncateBits, SignalsOf, NumRs, NumRt, NumRd, Add;
    AdderSignals(env, d.inst);
    AluAdds(env.xlen, d.valRs.bits, d.immediateVal.bits);
  }

  /** What the single-cycle core has after the jump: the reader is next and finds the link in its register. */
  lemma JumpRetires(env: Env, p: PipeState, j: Instruction, u: Instruction, t: Word)
    requires ReadsLink(env, p, j, u, t)
    ensures
      var s1, c := SingleStep(env, Abs(p), t), p.control;
      && s1.pc == t && ReadGp(s1.regs, j.rd) == Truncate(env.xlen, Offset(p.pc, 4))
      && s1.control.privilege == c.privilege && s1.control.checkMask == c.checkMask && SeesSame(s1.control, c)
    ensures SingleExecute(env, Abs(p), t).aluVal == Truncate(env.xlen, t)
  {
    hide MemoryStage, Decode, Execute, DecodedCause, MaskOk, SignalsOf, NumRs, NumRt, NumRd, ComputedNextInstAddr,
      SingleExecute, HandleException, Truncate, Starts, MayJumpTo;
    var s := Abs(p);
    var e := SingleExecute(env, s, t);
    StartsAt(env, p, j, t);
    SingleExecuteFields(env, s, t);
    SingleExecuteCopies(env, s, t);
    DecodedCauseOf(env, s.regs, s.control, FetchAt(env, s.control, s.pc, t));
    JumpSignals(env, j);
    PlainOutcome(env, s.memory, s.control, e);
    NoRedirectKeepsControl(env, s.memory, s.control, e);
    NoRedirectNoException(env, s.memory, s.control, e);
    RetiredResult(env, s, t);
    PredictedTarget(env, s, t);
  }

  lemma StartsAt(env: Env, p: PipeState, inst: Instruction, next: Word)
    requires Starts(env, p, inst, next)
    ensures Abs(p).pc == p.pc && Drained(p) && MaskOk(env, p.control)
    ensures FetchedAt(env, p.control, p.pc) == Fetched(inst, NoException)
    ensures DecodedCause(inst, NoException, p.control) == NoException
  {
    hide DecodedCause, MaskOk, Writeback;
  }

  lemma FiveCycles(env: Env, p: PipeState)
    ensures
      var q := PipeStep(env, PipeStep(env, PipeStep(env, p)));
      && PipeRun(env, p, 3) == q && PipeRun(env, p, 4) == PipeStep(env, q)
      && PipeRun(env, p, 5) == PipeStep(env, PipeStep(env, q))
  {
    hide PipeStep;
    assert PipeRun(env, p, 1) == PipeStep(env, p);
    assert PipeRun(env, p, 2) == PipeStep(env, PipeRun(env, p, 1));
  }

  lemma SingleTwice(env: Env, s: ArchState, g: Word, h: Word)
    ensures SingleRun(env, s, 0, 2) == SingleStep(env, SingleStep(env, s, g), h)
  {
    hide SingleStep;
    SingleRunExtends(env, s, 0, 1, h);
    SingleRunExtends(env, s, 0, 0, g);
  }

  lemma TwoPassed(env: Env, p: PipeState, j: Instruction, u: Instruction, t: Word)
    requires ReadsLink(env, p, j, u, t)
    ensures Passed(env, p, 5) == 2
  {
    hide PipeStep, Structure, Abs, Decode, Writeback, SingleExecute, Execute, Retire, PipeRun, DecodedCause, MaskOk,
      ComputedNextInstAddr;
    FirstFetched(env, p, j, t);
    var g := SecondFetched(env, p, j, t);
    var h := WrongOperandRetires(env, p, j, u, t);
    FiveCycles(env, p);
    assert PipeRun(env, p, 0) == p && PipeRun(env, p, 1) == PipeStep(env, p)
           && PipeRun(env, p, 2) == PipeStep(env, PipeStep(env, p)) by {
      TwoCycles(env, p);
    }
    PassedNone(env, p);
    PassedNext(env, p, 0);
    PassedNext(env, p, 1);
    PassedNext(env, p, 2);
    PassedNext(env, p, 3);
    PassedNext(env, p, 4);
  }

  lemma TwoCycles(env: Env, p: PipeState)
    ensures PipeRun(env, p, 0) == p && PipeRun(env, p, 1) == PipeStep(env, p)
    ensures PipeRun(env, p, 2) == PipeStep(env, PipeStep(env, p))
  {
    hide PipeStep;
  }

  /** The two cores disagree on the reader of the link. */
  lemma SumsDisagree(env: Env, p: PipeState, j: Instruction, u: Instruction, t: Word, g: Word)
    requires ReadsLink(env, p, j, u, t) && Truncate(env.xlen, t) != Truncate(env.xlen, Offset(p.pc, 4))
    requires if u.opcode == Jalr then t == p.pc else u.immediate == ZERO
    ensures
      var s, c := Abs(p), p.control;
      var d := Decode(env, s.regs, c, FetchAt(env, c, t, g)).(valRs := SingleExecute(env, s, t).aluVal);
      Retire(env, SingleStep(env, s, t), Execute(env, d)) != SingleStep(env, SingleStep(env, s, t), g)
  {
    hide MemoryStage, Decode, DecodedCause, MaskFor, SignalsOf, NumRs, NumRt, NumRd, ComputedNextInstAddr,
      SingleExecute, HandleException, Truncate, Starts, Retire, Plus, AluResult, FetchAt;
    var s, c := Abs(p), p.control;
    var s1 := SingleStep(env, s, t);
    JumpRetires(env, p, j, u, t);
    StartsAt(env, p, j, t);
    var d := Decode(env, s.regs, c, FetchAt(env, c, t, g)).(valRs := SingleExecute(env, s, t).aluVal);
    var d1 := Decode(env, s1.regs, s1.control, FetchAt(env, s1.control, s1.pc, g));
    AdderDecoded(env, s.regs, c, t, g, u);
    AdderDecoded(env, s1.regs, s1.control, t, g, u);
    SingleExecuteFields(env, s1, g);
    AdderSum(env, d);
    AdderSum(env, d1);
    AdderShows(env, s1, Execute(env, d));
    AdderShows(env, s1, Execute(env, d1));
    AluTruncates(env, d);
    AluTruncates(env, d1);
    if u.opcode == Jalr {
      FourApart(env.xlen, p.pc, u.immediate);
    } else {
      PlusZero(d.valRs);
      PlusZero(d1.valRs);
      TruncateAgain(env.xlen, t);
      TruncateAgain(env.xlen, Offset(p.pc, 4));
    }
  }

  lemma TruncateAgain(xlen: Xlen, v: Word)
    ensures Truncate(xlen, Truncate(xlen, v)) == Truncate(xlen, v)
  {
    hide Low32;
    LowTwice(v.bits);
  }

  lemma PlusZero(v: Word)
    ensures Plus(v, ZERO) == v
  {
  }

  lemma AdderDecoded(env: Env, regs: Registers, c: Control, a: Word, g: Word, u: Instruction)
    requires FetchedAt(env, c, a) == Fetched(u, NoException) && IsAdder(u) && MaskOk(env, c)
    ensures
      var d := Decode(env, regs, c, FetchAt(env, c, a, g));
      && d.inst == u && d.excause == NoException && d.signals == SignalsOf(env, u) && d.numRd == u.rd
      && d.valRs == ReadGp(regs, u.rs) && d.immediateVal == u.immediate
  {
    hide DecodedCause, SignalsOf, NumRs, NumRt, NumRd, MaskOk, CsrReadValue, FlagsOf, Has;
    AlwaysLegal(env, c, u);
    AdderSignals(env, u);
    UnneededRegisterIsZero(u);
  }

  lemma LinkDiverges(env: Env, p: PipeState, j: Instruction, u: Instruction, t: Word)
    requires ReadsLink(env, p, j, u, t) && Truncate(env.xlen, t) != Truncate(env.xlen, Offset(p.pc, 4))
    requires if u.opcode == Jalr then t == p.pc else u.immediate == ZERO
    ensures !InStep(env, p, 5)
  {
    hide PipeStep, Abs, Decode, SingleExecute, Execute, Retire, PipeRun, ReadsLink, Passed, SingleStep, SingleRun,
      Truncate;
    var g := WrongOperandRetires(env, p, j, u, t);
    FiveCycles(env, p);
    TwoPassed(env, p, j, u, t);
    SingleTwice(env, Abs(p), t, g);
    SumsDisagree(env, p, j, u, t, g);
  }

  // ---------------------------------------------------------------- every unsafe prediction diverges

  /** `j` at `a`, and everywhere else a copy of its link register. */
  function LinkProgram(j: Instruction, a: Word): (Word, Privilege, Word) -> Fetched {
    (x: Word, privilege: Privilege, satp: Word) =>
      Fetched(if x == a then j else Instruction(OpImm(ADD, false, false), j.rd, j.rd, 0, ZERO, 0), NoException)
  }

  /** Registers from which the jump goes to `t`. */
  lemma Aim(xlen: Xlen, j: Instruction, a: Word, t: Word, regs: Registers) returns (aimed: Registers)
    requires j.opcode == Jalr && MayJumpTo(xlen, j, a, t)
    ensures Truncate(xlen, Plus(ReadGp(aimed, j.rs), j.immediate)) == t
  {
    hide Add, Difference, TruncateBits;
    if j.rs == 0 {
      aimed := regs;
      ZeroPlus(regs, j.immediate);
    } else {
      aimed := regs[j.rs := Word(Difference(t.bits, j.immediate.bits))];
      Numbers.DifferenceAddsBack(t.bits, j.immediate.bits);
    }
  }

  lemma JumpComputes(env: Env, s: ArchState, predicted: Word)
    requires
      var e := SingleExecute(env, s, predicted);
      e.excause == NoException && IsJump(e.inst)
    ensures
      var e := SingleExecute(env, s, predicted);
      ComputedNextInstAddr(e) == if e.inst.opcode == Jal then Plus(s.pc, e.inst.immediate) else e.aluVal
  {
    hide AluResult, RsValue, CsrReadValue, DecodedCause, Truncate, NumRs, NumRt, NumRd, ReadGp, Plus;
  }

  lemma {:induction false} AimedJump(env: Env, s: ArchState, t: Word)
    requires
      var f := FetchedAt(env, s.control, s.pc);
      && IsJump(f.inst) && f.excause == NoException && MaskOk(env, s.control) && MayJumpTo(env.xlen, f.inst, s.pc, t)
      && (f.inst.opcode == Jalr ==> Truncate(env.xlen, Plus(ReadGp(s.regs, f.inst.rs), f.inst.immediate)) == t)
    ensures ComputedNextInstAddr(SingleExecute(env, s, t)) == t
  {
    hide SingleExecute, Decode, Execute, ComputedNextInstAddr, Truncate, Plus, ReadGp, DecodedCause, MaskOk, AluResult,
      SignalsOf, NumRd;
    SingleExecuteFields(env, s, t);
    DecodedCauseOf(env, s.regs, s.control, FetchAt(env, s.control, s.pc, t));
    AlwaysLegal(env, s.control, SingleExecute(env, s, t).inst);
    JumpComputes(env, s, t);
    if SingleExecute(env, s, t).inst.opcode == Jalr {
      JalrAlu(env, s, t);
    }
  }

  /** The instruction that reads the link at the jump's target. */
  function ReaderAt(j: Instruction, a: Word, t: Word): Instruction {
    LinkProgram(j, a)(t, Machine, ZERO).inst
  }

  lemma ReaderReads(j: Instruction, a: Word, t: Word)
    requires IsJump(j) && j.rd != 0 && !LoopsUnread(j, a, t)
    ensures
      var u := ReaderAt(j, a, t);
      IsAdder(u) && u.rs == j.rd && u.rd != 0 && (if u.opcode == Jalr then t == a else u.immediate == ZERO)
  {
  }

  lemma LinkProgramSafe(j: Instruction, a: Word)
    requires IsJump(j)
    ensures ProgramSafe(LinkProgram(j, a))
  {
  }

  /** With no interrupt requested, fetching finds what the program holds. */
  lemma LinkProgramHolds(env: Env, c: Control, j: Instruction, a: Word, x: Word)
    requires env.program == LinkProgram(j, a) && Requested(c) == NoException
    ensures FetchedAt(env, c, x) == Fetched(if x == a then j else ReaderAt(j, a, x), NoException)
    ensures x == a ==> ReaderAt(j, a, x) == j
  {
    hide Requested;
  }

  lemma LinkReached(env: Env, j: Instruction, t: Word, p: PipeState)
    requires env.hazardUnit == HuStallForward && Drained(p) && MaskOk(env, p.control)
             && env.program == LinkProgram(j, p.pc)
    requires Requested(p.control) == NoException
    requires IsJump(j) && j.rd != 0 && !LoopsUnread(j, p.pc, t) && env.predict(p.cycleCount + 1, j, p.pc) == t
    requires ComputedNextInstAddr(SingleExecute(env, Abs(p), t)) == t
    ensures ReadsLink(env, p, j, ReaderAt(j, p.pc, t), t)
  {
    hide SingleExecute, ComputedNextInstAddr, DecodedCause, MaskOk, IsAdder, Abs, Requested, FetchedAt, ReaderAt,
      LinkProgram;
    AlwaysLegal(env, p.control, j);
    LinkProgramHolds(env, p.control, j, p.pc, p.pc);
    LinkProgramHolds(env, p.control, j, p.pc, t);
    ReaderReads(j, p.pc, t);
  }

  /**
   * Every unsafe prediction, in any cycle and any control state without a pending interrupt, has a program
   * on which the forwarding core leaves the single-cycle core's path within five cycles.
   */
  lemma UnsafeLinkDiverges(env: Env, cycle: nat, j: Instruction, a: Word, s: ArchState) returns (p: PipeState)
    requires env.hazardUnit == HuStallForward && MaskOk(env, s.control) && Requested(s.control) == NoException
    requires cycle > 0 && !LinkSafe(env.xlen, j, a, env.predict(cycle, j, a))
    ensures Drained(p) && MaskOk(env, p.control) && p.cycleCount == cycle - 1
    ensures ProgramSafe(LinkProgram(j, a))
    ensures !InStep(env.(program := LinkProgram(j, a)), p, 5)
  {
    hide SingleExecute, ComputedNextInstAddr, Truncate, Plus, ReadGp, InStep, MayJumpTo, MaskFor, LinkProgram,
      LoopsUnread, ReadsLink, ProgramSafe, Writeback, Requested, FetchedAt;
    var t, env' := env.predict(cycle, j, a), env.(program := LinkProgram(j, a));
    var regs := s.regs;
    if j.opcode == Jalr {
      regs := Aim(env.xlen, j, a, t, s.regs);
    }
    var s' := ArchState(a, regs, s.memory, s.control);
    p := PipeReset(s').(cycleCount := cycle - 1);
    SameMask(env, env', s.control);
    LinkProgramSafe(j, a);
    LinkProgramHolds(env', s.control, j, a, a);
    assert Abs(p) == s' by { ResetAbs(s', cycle - 1); }
    AimedJump(env', s', t);
    LinkReached(env', j, t, p);
    ReaderReads(j, a, t);
    LinkDiverges(env', p, j, ReaderAt(j, a, t), t);
  }

  lemma ResetAbs(s: ArchState, cycle: nat)
    ensures Abs(PipeReset(s).(cycleCount := cycle)) == s
  {
  }

  lemma SameMask(env: Env, env': Env, c: Control)
    requires env' == env.(program := env'.program) && MaskOk(env, c)
    ensures MaskOk(env', c)
  {
  }

  /** A state at machine level with all registers, CSRs and bytes zero. */
  function ResetState(env: Env, pc: Word): ArchState {
    ArchState(pc, seq(32, _ => ZERO), _ => 0,
              Control(seq(COUNT, _ => ZERO), Machine, MaskFor(env, Machine), EMPTY_RANGE))
  }

  lemma ResetQuiet(env: Env, pc: Word)
    ensures MaskOk(env, ResetState(env, pc).control) && Requested(ResetState(env, pc).control) == NoException
  {
    hide MaskFor;
  }

  /**
   * The forwarding core computes what the single-cycle core computes, on every program without clobbered
   * immediates.
   */
  ghost predicate ForwardingSound(env: Env) {
    forall program: (Word, Privilege, Word) -> Fetched, p: PipeState, cycles: nat ::
      ProgramSafe(program) && Drained(p) && MaskOk(env, p.control) ==> InStep(env.(program := program), p, cycles)
  }

  /** Forwarding is sound for all programs exactly when the predictor is safe. */
  lemma ForwardingSoundIff(env: Env)
    requires env.hazardUnit == HuStallForward
    ensures ForwardingSound(env) <==> PredictorSafe(env)
  {
    hide LinkSafe, PipeRun, Passed, SingleRun, Abs, ImmediateSafe, Inv, MaskFor, Requested, ResetState;
    if PredictorSafe(env) {
      forall program: (Word, Privilege, Word) -> Fetched, p: PipeState, cycles: nat
        | ProgramSafe(program) && Drained(p) && MaskOk(env, p.control)
        ensures InStep(env.(program := program), p, cycles)
      {
        var env' := env.(program := program);
        SameMask(env, env', p.control);
        DrainedInv(env', p);
        RunRefines(env', p, cycles);
      }
    } else {
      var cycle: nat, j, a :| cycle > 0 && !LinkSafe(env.xlen, j, a, env.predict(cycle, j, a));
      ResetQuiet(env, a);
      var p := UnsafeLinkDiverges(env, cycle, j, a, ResetState(env, a));
    }
  }

  /** With the predictor disabled every prediction is the fall-through address, which is safe. */
  lemma DisabledPredictorSafe(env: Env)
    requires forall cycle: nat, inst, a :: env.predict(cycle, inst, a) == Offset(a, 4)
    ensures PredictorSafe(env)
  {
    hide Truncate, MayJumpTo, LoopsUnread;
  }

  // ---------------------------------------------------------------- clobbered immediates

  function Addi(rd: RegisterId, immediate: Word): Instruction {
    Instruction(OpImm(ADD, false, false), rd, 0, 0, immediate, 0)
  }

  /** csrrwi x0, mscratch, uimm */
  function StoreImmediate(uimm: RegisterId): Instruction {
    Instruction(Csr(CSRRW, true), 0, uimm, 0, ZERO, MSCRATCH)
  }

  lemma StoreImmediateSignals(env: Env, r: RegisterId)
    ensures
      var g := SignalsOf(env, StoreImmediate(r));
      && g.component == BasicAlu(ADD) && g.wOperation == (env.xlen != Xlen64) && !g.aluPc && !g.alusrc && !g.csrToAlu
      && !g.aluMod
      && g.csr && g.csrWrite && !g.xret && g.memctl == AccessNone
  {
  }

  lemma StoreImmediateLegal(env: Env, c: Control, r: RegisterId)
    requires MaskOk(env, c)
    ensures DecodedCause(StoreImmediate(r), NoException, c) == NoException
  {
  }

  /**
   * A drained pipeline about to fetch an instruction that writes `r`, with the CSR write of the number `r`
   * behind it.
   */
  predicate WritesNumber(env: Env, p: PipeState, r: RegisterId, v: Word) {
    && env.hazardUnit == HuStallForward && r != 0 && Starts(env, p, Addi(r, v), Offset(p.pc, 4))
    && FetchedAt(env, p.control, Offset(p.pc, 4)) == Fetched(StoreImmediate(r), NoException)
  }

  /** The CSR instruction waits in IF/ID until nothing is left in EX. */
  lemma WaitingStep(env: Env, q: PipeState)
    requires Structure(env, q) && InertExecute(q.exMem) && q.idEx.isValid && q.idEx.excause == NoException
    requires
      var d := Decode(env, Writeback(q.regs, q.memWb), q.control, q.ifId);
      d.excause == NoException && d.signals.csr
    ensures
      var q' := PipeStep(env, q);
      && q'.regs == Writeback(q.regs, q.memWb) == Writeback(q'.regs, q'.memWb) && q'.memory == q.memory
      && q'.control == q.control
      && q'.exMem == Execute(env, q.idEx) && q'.idEx == FLUSHED_DECODE && q'.ifId == q.ifId
  {
    hide MemoryStage, Decode, Execute, PipeStep, Structure, DataHazards, Fetch;
    InertMemory(env, q.memory, q.control, q.exMem);
    QuietStep(env, q);
    ExecuteCopies(env, q.idEx);
    HazardsKeepInstruction(env.hazardUnit, Out(env, q).interstage, NextExecute(env, q), NextDecode(env, q));
  }

  /** Decoded a cycle later, it takes the result in MEM/WB for its operand. */
  lemma ClobberingStep(env: Env, q: PipeState)
    requires env.hazardUnit == HuStallForward && Structure(env, q) && q.idEx == FLUSHED_DECODE
    requires !Redirects(Out(env, q).interstage)
    requires
      var w, d := Out(env, q).interstage, NextDecode(env, q);
      && d.excause == NoException && d.signals.aluReqRs && !d.signals.aluReqRt && d.numRs != 0
      && w.regwrite && w.numRd == d.numRs
    ensures
      var q' := PipeStep(env, q);
      && q'.idEx == NextDecode(env, q).(valRs := Out(env, q).interstage.towriteVal) && !q'.exMem.isValid
  {
    hide MemoryStage, Decode, Execute, PipeStep, Structure, DataHazards, Fetch, Writeback;
    QuietStep(env, q);
    FlushedExecutes(env);
    ClobberingHazards(Out(env, q).interstage, NextExecute(env, q), NextDecode(env, q));
  }

  lemma ClobberingHazards(w: MemoryInterstage, e: ExecuteInterstage, d: DecodeInterstage)
    requires InertExecute(e) && w.regwrite && w.numRd == d.numRs != 0 && d.signals.aluReqRs && !d.signals.aluReqRt
    ensures DataHazards(HuStallForward, w, e, d) == (false, d.(valRs := w.towriteVal))
  {
  }

  /** What the single-cycle core has after the first instruction. */
  lemma AddiRetires(env: Env, p: PipeState, r: RegisterId, v: Word)
    requires WritesNumber(env, p, r, v)
    ensures
      var s, next := Abs(p), Offset(p.pc, 4);
      var e, s1 := SingleExecute(env, s, next), SingleStep(env, s, next);
      var out := MemoryStage(env, s.memory, s.control, e);
      && !Redirects(out.interstage) && out.interstage.regwrite && out.interstage.numRd == r
      && out.interstage.towriteVal == e.aluVal == Truncate(env.xlen, v)
      && s1.control == out.control && s1.pc == next && MaskOk(env, s1.control)
      && s1.control.privilege == s.control.privilege && SeesSame(s1.control, s.control)
      && e.isValid && e.excause == NoException
  {
    hide MemoryStage, Decode, Execute, DecodedCause, MaskFor, SignalsOf, NumRs, NumRt, NumRd, SingleExecute,
      HandleException, Truncate, Starts, AluResult;
    var s, next := Abs(p), Offset(p.pc, 4);
    var e := SingleExecute(env, s, next);
    var f := FetchAt(env, s.control, s.pc, next);
    StartsAt(env, p, Addi(r, v), next);
    SingleExecuteFields(env, s, next);
    SingleExecuteCopies(env, s, next);
    DecodedCauseOf(env, s.regs, s.control, f);
    AdderSignals(env, e.inst);
    NextAddress(e);
    PlainOutcome(env, s.memory, s.control, e);
    NoRedirectKeepsControl(env, s.memory, s.control, e);
    NoRedirectNoException(env, s.memory, s.control, e);
    RetiredResult(env, s, next);
    AdderDecoded(env, s.regs, s.control, s.pc, next, e.inst);
    AdderSum(env, Decode(env, s.regs, s.control, f));
    ZeroPlus(s.regs, v);
  }

  lemma NextAddress(e: ExecuteInterstage)
    requires !e.signals.branchBxx && !e.signals.branchJal && !e.signals.branchJalr
    ensures ComputedNextInstAddr(e) == e.nextInstAddr
  {
  }

  /** Four cycles on, the CSR instruction is in ID/EX with the register's value in place of its number. */
  lemma NumberClobbered(env: Env, p: PipeState, r: RegisterId, v: Word) returns (g: Word)
    requires WritesNumber(env, p, r, v)
    ensures
      var q, s1 := PipeStep(env, PipeStep(env, PipeStep(env, p))), SingleStep(env, Abs(p), Offset(p.pc, 4));
      var q', d := PipeStep(env, q), Decode(env, Abs(p).regs, s1.control, FetchAt(env, p.control, Offset(p.pc, 4), g));
      && q.exMem.isValid && !q'.exMem.isValid && Structure(env, q') && Abs(q') == s1
      && q'.idEx == d.(valRs := Truncate(env.xlen, v))
  {
    hide MemoryStage, Decode, Execute, PipeStep, Structure, DecodedCause, MaskFor, SignalsOf, NumRs, NumRt, NumRd,
      SingleExecute, HandleException, Truncate, Starts, Writeback, FetchAt;
    var s, c, next := Abs(p), p.control, Offset(p.pc, 4);
    StartsAt(env, p, Addi(r, v), next);
    g := SecondFetched(env, p, Addi(r, v), next);
    var q2 := PipeStep(env, PipeStep(env, p));
    var q := PipeStep(env, q2);
    var f := FetchAt(env, c, next, g);
    SingleExecuteFields(env, s, next);
    AddiRetires(env, p, r, v);
    NumberDecoded(env, s.regs, c, next, g, r);
    WaitingStep(env, q2);
    StructureStep(env, q2);
    NumberDecoded(env, s.regs, Out(env, q).control, next, g, r);
    SameFetch(env, c, Out(env, q).control, next, g);
    ClobberingStep(env, q);
    StructureStep(env, q);
  }

  lemma NumberDecoded(env: Env, regs: Registers, c: Control, a: Word, g: Word, r: RegisterId)
    requires FetchedAt(env, c, a) == Fetched(StoreImmediate(r), NoException) && MaskOk(env, c)
    ensures
      var d := Decode(env, regs, c, FetchAt(env, c, a, g));
      && d.inst == StoreImmediate(r) && d.excause == NoException && d.signals == SignalsOf(env, StoreImmediate(r))
      && d.isValid
      && d.signals.csr && d.signals.aluReqRs && !d.signals.aluReqRt && d.numRs == r
      && d.valRs == Word(r as bv64) && d.valRt == ZERO
  {
    hide DecodedCause, SignalsOf, NumRs, NumRt, NumRd, MaskOk, CsrReadValue, FlagsOf, Has;
    StoreImmediateLegal(env, c, r);
    CsrImmediateOperands(env, StoreImmediate(r));
  }

  /** The value stored by the CSR instruction shows in mscratch. */
  lemma StoreShows(env: Env, s: ArchState, x: ExecuteInterstage)
    requires x.isValid && x.excause == NoException && x.signals == SignalsOf(env, x.inst)
    requires exists r :: x.inst == StoreImmediate(r)
    ensures Retire(env, s, x).control.csrs[MSCRATCH] == Truncate(env.xlen, x.aluVal)
  {
    hide ReturnAddress, Truncate, SignalsOf, NumRs, NumRt, NumRd, WriteInternal, HandleException;
    StoreImmediateSignals(env, x.inst.rs);
    NoAccess(env, s.memory, s.control, x);
    var counted := WriteInternal(env.xlen, s.control.csrs, MINSTRET, Offset(s.control.csrs[MINSTRET], 1));
    ScratchWritten(env.xlen, counted, x.aluVal);
  }

  lemma ScratchWritten(xlen: Xlen, f: CsrFile, v: Word)
    ensures WriteInternal(xlen, f, MSCRATCH, v)[MSCRATCH] == Truncate(xlen, v)
  {
    hide TruncateBits, Masked;
    AllWritten(f[MSCRATCH].bits, v.bits);
  }

  lemma AllWritten(reg: bv64, v: bv64)
    ensures Masked(WriteMask(MSCRATCH), reg, v) == v
  {
  }

  lemma StoreSum(env: Env, d: DecodeInterstage)
    requires d.excause == NoException && d.signals == SignalsOf(env, d.inst) && d.valRt == ZERO
    requires exists r :: d.inst == StoreImmediate(r)
    ensures AluResult(env, d) == Truncate(env.xlen, d.valRs)
  {
    hide Operate, TruncateBits, SignalsOf, NumRs, NumRt, NumRd, Add;
    StoreImmediateSignals(env, d.inst.rs);
    AluAdds(env.xlen, d.valRs.bits, 0);
    PlusZero(d.valRs);
  }

  /** The two cores disagree on what was stored. */
  lemma StoresDisagree(env: Env, p: PipeState, r: RegisterId, v: Word, g: Word)
    requires WritesNumber(env, p, r, v) && Truncate(env.xlen, v) != Truncate(env.xlen, Word(r as bv64))
    ensures
      var s1 := SingleStep(env, Abs(p), Offset(p.pc, 4));
      var f := FetchAt(env, p.control, Offset(p.pc, 4), g);
      var d := Decode(env, Abs(p).regs, s1.control, f).(valRs := Truncate(env.xlen, v));
      Retire(env, s1, Execute(env, d)) != SingleStep(env, s1, g)
  {
    hide MemoryStage, Decode, DecodedCause, MaskFor, SignalsOf, NumRs, NumRt, NumRd, SingleExecute, HandleException,
      Truncate, Starts, Retire, AluResult, FetchAt, Plus;
    var s1, next := SingleStep(env, Abs(p), Offset(p.pc, 4)), Offset(p.pc, 4);
    AddiRetires(env, p, r, v);
    StartsAt(env, p, Addi(r, v), next);
    SameFetch(env, p.control, s1.control, next, g);
    NumberDecoded(env, Abs(p).regs, s1.control, next, g, r);
    NumberDecoded(env, s1.regs, s1.control, next, g, r);
    var d := Decode(env, Abs(p).regs, s1.control, FetchAt(env, p.control, next, g)).(valRs := Truncate(env.xlen, v));
    var d1 := Decode(env, s1.regs, s1.control, FetchAt(env, s1.control, next, g));
    SingleExecuteFields(env, s1, g);
    StoreSum(env, d);
    StoreSum(env, d1);
    StoreShows(env, s1, Execute(env, d));
    StoreShows(env, s1, Execute(env, d1));
    TruncateAgain(env.xlen, v);
    TruncateAgain(env.xlen, Word(r as bv64));
  }

  lemma NumberRetires(env: Env, p: PipeState, r: RegisterId, v: Word) returns (g: Word)
    requires WritesNumber(env, p, r, v)
    ensures
      var q, s1 := PipeStep(env, PipeStep(env, PipeStep(env, p))), SingleStep(env, Abs(p), Offset(p.pc, 4));
      var f := FetchAt(env, p.control, Offset(p.pc, 4), g);
      var d := Decode(env, Abs(p).regs, s1.control, f).(valRs := Truncate(env.xlen, v));
      && q.exMem.isValid && !PipeStep(env, q).exMem.isValid && PipeStep(env, PipeStep(env, q)).exMem.isValid
      && Abs(PipeStep(env, PipeStep(env, PipeStep(env, q)))) == Retire(env, s1, Execute(env, d))
  {
    hide MemoryStage, Decode, Execute, PipeStep, Structure, DecodedCause, MaskFor, SignalsOf, NumRs, NumRt, NumRd,
      SingleStep, HandleException, Truncate, Starts, Writeback, FetchAt, Retire, Stalls, Fetch;
    g := NumberClobbered(env, p, r, v);
    var q := PipeStep(env, PipeStep(env, PipeStep(env, PipeStep(env, p))));
    BubblePasses(env, q);
    QuietStep(env, q);
    StructureStep(env, q);
    StructureStep(env, PipeStep(env, q));
    ExecuteCopies(env, q.idEx);
    FetchedValid(env, Abs(p).regs, SingleStep(env, Abs(p), Offset(p.pc, 4)).control, p.control, Offset(p.pc, 4), g);
  }

  lemma FetchedValid(env: Env, regs: Registers, c: Control, d: Control, a: Word, g: Word)
    ensures Decode(env, regs, c, FetchAt(env, d, a, g)).isValid
  {
    hide SignalsOf, DecodedCause;
  }

  lemma SixCycles(env: Env, p: PipeState)
    ensures
      var q := PipeStep(env, PipeStep(env, PipeStep(env, p)));
      PipeRun(env, p, 6) == PipeStep(env, PipeStep(env, PipeStep(env, q)))
  {
    hide PipeStep;
    FiveCycles(env, p);
    assert PipeRun(env, p, 6) == PipeStep(env, PipeRun(env, p, 5));
  }

  lemma TwoStored(env: Env, p: PipeState, r: RegisterId, v: Word)
    requires WritesNumber(env, p, r, v)
    ensures Passed(env, p, 6) == 2
  {
    hide PipeStep, Structure, Abs, Decode, Writeback, SingleStep, Execute, Retire, PipeRun, DecodedCause, MaskOk,
      FetchAt;
    FirstFetched(env, p, Addi(r, v), Offset(p.pc, 4));
    var g := SecondFetched(env, p, Addi(r, v), Offset(p.pc, 4));
    var h := NumberRetires(env, p, r, v);
    FiveCycles(env, p);
    TwoCycles(env, p);
    PassedNone(env, p);
    PassedNext(env, p, 0);
    PassedNext(env, p, 1);
    PassedNext(env, p, 2);
    PassedNext(env, p, 3);
    PassedNext(env, p, 4);
    PassedNext(env, p, 5);
  }

  lemma NumberDiverges(env: Env, p: PipeState, r: RegisterId, v: Word)
    requires WritesNumber(env, p, r, v) && Truncate(env.xlen, v) != Truncate(env.xlen, Word(r as bv64))
    ensures !InStep(env, p, 6)
  {
    hide PipeStep, Abs, Decode, Execute, Retire, PipeRun, WritesNumber, Passed, SingleStep, SingleRun, Truncate;
    var g := NumberRetires(env, p, r, v);
    SixCycles(env, p);
    TwoStored(env, p, r, v);
    SingleTwice(env, Abs(p), Offset(p.pc, 4), g);
    StoresDisagree(env, p, r, v, g);
  }

  /** At `a` register `r` is cleared; everywhere else the number `r` is stored in mscratch. */
  function NumberProgram(r: RegisterId, a: Word): (Word, Privilege, Word) -> Fetched {
    (x: Word, privilege: Privilege, satp: Word) =>
      Fetched(if x == a then Addi(r, ZERO) else StoreImmediate(r), NoException)
  }

  lemma NumberShows(xlen: Xlen, r: RegisterId)
    requires r != 0
    ensures Truncate(xlen, ZERO) != Truncate(xlen, Word(r as bv64))
  {
  }

  lemma NumberHolds(env: Env, c: Control, r: RegisterId, a: Word, x: Word)
    requires env.program == NumberProgram(r, a) && Requested(c) == NoException
    ensures FetchedAt(env, c, x) == Fetched(if x == a then Addi(r, ZERO) else StoreImmediate(r), NoException)
  {
    hide Requested;
  }

  lemma NotItself(a: Word)
    ensures Offset(a, 4) != a
  {
    hide Add;
    FourMore(a.bits);
  }

  /**
   * Every CSR immediate but zero has a program, from any state without a pending interrupt, on which the
   * forwarding core stores a register's value instead of it.
   */
  lemma ImmediateDiverges(env: Env, cycle: nat, r: RegisterId, a: Word, s: ArchState) returns (p: PipeState)
    requires env.hazardUnit == HuStallForward && MaskOk(env, s.control) && Requested(s.control) == NoException
    requires r != 0 && cycle > 0 && env.predict(cycle, Addi(r, ZERO), a) == Offset(a, 4)
    ensures Drained(p) && MaskOk(env, p.control) && p.cycleCount == cycle - 1
    ensures !InStep(env.(program := NumberProgram(r, a)), p, 6)
  {
    hide Truncate, InStep, MaskFor, NumberProgram, Requested, FetchedAt, DecodedCause, Offset;
    var env' := env.(program := NumberProgram(r, a));
    p := PipeReset(ArchState(a, s.regs, s.memory, s.control)).(cycleCount := cycle - 1);
    SameMask(env, env', s.control);
    AlwaysLegal(env', s.control, Addi(r, ZERO));
    NumberHolds(env', s.control, r, a, a);
    NumberHolds(env', s.control, r, a, Offset(a, 4));
    NotItself(a);
    NumberShows(env.xlen, r);
    NumberDiverges(env', p, r, ZERO);
  }

  // ---------------------------------------------------------------- which immediates are sound

  /** The predictor sends nothing but branches and jumps anywhere else than to the next instruction. */
  ghost predicate FallsThrough(env: Env) {
    forall cycle: nat, inst: Instruction, a ::
      cycle > 0 && !IsJump(inst) && !inst.opcode.Branch? ==> env.predict(cycle, inst, a) == Offset(a, 4)
  }

  /** The CSR immediates of the program are among `allowed`. */
  ghost predicate ImmediatesIn(program: (Word, Privilege, Word) -> Fetched, allowed: set<RegisterId>) {
    forall a, privilege, satp ::
      var inst := program(a, privilege, satp).inst;
      IsCsrImmediate(inst) ==> inst.rs in allowed
  }

  ghost predicate SoundWith(env: Env, allowed: set<RegisterId>) {
    forall program: (Word, Privilege, Word) -> Fetched, p: PipeState, cycles: nat ::
      ImmediatesIn(program, allowed) && Drained(p) && MaskOk(env, p.control) ==>
        InStep(env.(program := program), p, cycles)
  }

  lemma NumberProgramUses(r: RegisterId, a: Word, allowed: set<RegisterId>)
    requires r in allowed
    ensures ImmediatesIn(NumberProgram(r, a), allowed)
  {
  }

  lemma LinkProgramUses(j: Instruction, a: Word, allowed: set<RegisterId>)
    requires IsJump(j)
    ensures ImmediatesIn(LinkProgram(j, a), allowed)
  {
  }

  lemma OnlyZero(program: (Word, Privilege, Word) -> Fetched, allowed: set<RegisterId>)
    requires ImmediatesIn(program, allowed) && forall r :: r in allowed ==> r == 0
    ensures ProgramSafe(program)
  {
  }

  /**
   * Among predictors that send only branches and jumps elsewhere, forwarding is sound on all programs whose
   * CSR immediates are allowed exactly when the predictor is safe and no immediate but zero is allowed.
   */
  lemma SoundWithIff(env: Env, allowed: set<RegisterId>)
    requires env.hazardUnit == HuStallForward && FallsThrough(env)
    ensures SoundWith(env, allowed) <==> PredictorSafe(env) && forall r :: r in allowed ==> r == 0
  {
    hide LinkSafe, InStep, ImmediateSafe, MaskOk, Requested, ResetState, ProgramSafe, ImmediatesIn, Offset;
    ResetQuiet(env, ZERO);
    if r :| r in allowed && r != 0 {
      var p := ImmediateDiverges(env, 1, r, ZERO, ResetState(env, ZERO));
      NumberProgramUses(r, ZERO, allowed);
    } else if PredictorSafe(env) {
      ForwardingSoundIff(env);
      forall program: (Word, Privilege, Word) -> Fetched, p: PipeState, cycles: nat
        | ImmediatesIn(program, allowed) && Drained(p) && MaskOk(env, p.control)
        ensures InStep(env.(program := program), p, cycles)
      {
        OnlyZero(program, allowed);
      }
    } else {
      var cycle: nat, j, a :| cycle > 0 && !LinkSafe(env.xlen, j, a, env.predict(cycle, j, a));
      ResetQuiet(env, a);
      var p := UnsafeLinkDiverges(env, cycle, j, a, ResetState(env, a));
      assert IsJump(j) by { UnsafeIsJump(env.xlen, j, a, env.predict(cycle, j, a)); }
      LinkProgramUses(j, a, allowed);
    }
  }

  lemma UnsafeIsJump(xlen: Xlen, inst: Instruction, a: Word, predicted: Word)
    requires !LinkSafe(xlen, inst, a, predicted)
    ensures IsJump(inst)
  {
  }
}
