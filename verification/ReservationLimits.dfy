/** Programs on which a store-conditional does other than its reserved bytes call for. */
module ReservationLimits {
  import opened Words
  import opened Alu
  import opened MachineDefs
  import opened CsrFunctions
  import opened InstructionSet
  import opened Stages
  import opened Refinement
  import opened ForwardingLimits
  import opened Spans
  import opened Reservation

  /** lr x4, (x1) */
  function LoadInstruction(wide: bool): Instruction {
    Instruction(Lr(wide), 4, 1, 0, ZERO, 0)
  }

  /** sc x3, x2, (x5) */
  function StoreInstruction(wide: bool): Instruction {
    Instruction(Sc(wide), 3, 5, 2, ZERO, 0)
  }

  /** At `a` the load-reserved, and everywhere else the store-conditional. */
  function PairProgram(a: Word, loads: bool, stores: bool): (Word, Privilege, Word) -> Fetched {
    (x: Word, privilege: Privilege, satp: Word) =>
      Fetched(if x == a then LoadInstruction(loads) else StoreInstruction(stores), NoException)
  }

  /** An RV64 machine with that program and atomics, in a state without a pending interrupt or a reservation. */
  ghost predicate RunsPair(env: Env, s: ArchState, a: Word, loads: bool, stores: bool) {
    && env.xlen == Xlen64 && env.isaA && env.program == PairProgram(a, loads, stores)
    && MaskOk(env, s.control) && Requested(s.control) == NoException && s.control.reserved == EMPTY_RANGE
  }

  predicate IsPair(inst: Instruction) {
    inst.opcode.Lr? || inst.opcode.Sc?
  }

  lemma PairSignals(env: Env, inst: Instruction)
    requires IsPair(inst)
    ensures
      var g := SignalsOf(env, inst);
      && g.component == Pass && !g.aluPc && g.regwrite && !g.csrWrite && !g.xret
      && !g.branchBxx && !g.branchJal && !g.branchJalr
      && (inst.opcode.Lr? ==> g.memctl == LoadReserved(inst.opcode.wide) && g.memread && !g.memwrite)
      && (inst.opcode.Sc? ==> g.memctl == StoreConditional(inst.opcode.wide) && g.memwrite)
    ensures NumRd(inst) == inst.rd && NumRs(inst) == inst.rs && (inst.opcode.Sc? ==> NumRt(inst) == inst.rt)
    ensures !Has(FlagsOf(inst.opcode), IMF_ALU_RS_ID)
  {
  }

  lemma PairLegal(env: Env, c: Control, inst: Instruction)
    requires MaskOk(env, c) && IsPair(inst) && env.isaA
    ensures DecodedCause(inst, NoException, c) == NoException
  {
  }

  lemma PairFetched(env: Env, c: Control, a: Word, loads: bool, stores: bool, pc: Word)
    requires env.program == PairProgram(a, loads, stores) && Requested(c) == NoException
    ensures FetchedAt(env, c, pc)
            == Fetched(if pc == a then LoadInstruction(loads) else StoreInstruction(stores), NoException)
  {
    hide Requested;
  }

  lemma Passes(w: bool, modified: bool, a: bv64, b: bv64)
    ensures TruncateBits(Xlen64, Operate(Pass, w, modified, a, b)) == a
  {
  }

  lemma PairExecutes(env: Env, s: ArchState, inst: Instruction)
    requires env.xlen == Xlen64 && env.isaA && MaskOk(env, s.control) && IsPair(inst)
    requires FetchedAt(env, s.control, s.pc) == Fetched(inst, NoException)
    ensures
      var e := Executed(env, s);
      && e.excause == NoException && e.signals == SignalsOf(env, inst) && e.aluVal == ReadGp(s.regs, inst.rs)
      && e.numRd == inst.rd && e.nextInstAddr == Offset(s.pc, 4) && e.isValid && e.inst == inst
      && (inst.opcode.Sc? ==> e.valRt == ReadGp(s.regs, inst.rt))
  {
    hide DecodedCause, Operate, TruncateBits, SignalsOf, NumRs, NumRt, NumRd, Add, FlagsOf, Has, CsrReadValue, MaskOk,
      FetchedAt, Offset, Plus;
    PairSignals(env, inst);
    PairLegal(env, s.control, inst);
    var d := Decode(env, s.regs, s.control, FetchAt(env, s.control, s.pc, ZERO));
    var snd := if d.signals.csrToAlu then d.csrReadVal else if d.signals.alusrc then d.immediateVal else d.valRt;
    Passes(d.signals.wOperation, d.signals.aluMod, d.valRs.bits, snd.bits);
  }

  /** What the store-conditional does: success or failure as comparing the ends of the two ranges says. */
  ghost predicate Ends(s: ArchState, after: ArchState, stores: bool, success: bool) {
    && (var size := if stores then 8 else 4;
        after.memory == if success then WriteBytes(s.memory, s.regs[5].bits, size, s.regs[2].bits) else s.memory)
    && after.regs[3] == Word(if success then 0 else 1)
  }

  lemma StoreCompletes(env: Env, m: Memory, c: Control, e: ExecuteInterstage)
    requires e.excause == NoException && e.signals.memctl.StoreConditional? && e.signals.memwrite
    requires !env.dataFault(e.aluVal, WriteOp, c.privilege, c.csrs)
    ensures MemoryStage(env, m, c, e).interstage.excause == NoException
  {
    hide ControlAfter, ReturnAddress, ComputedNextInstAddr, WritebackValue, RangeAt, WriteBytes, Read32, Read64,
      SignExtend32;
  }

  lemma StoreStep(env: Env, s: ArchState, a: Word, loads: bool, stores: bool)
    requires env.xlen == Xlen64 && env.isaA && env.program == PairProgram(a, loads, stores)
    requires MaskOk(env, s.control) && Requested(s.control) == NoException && s.pc != a
    requires !env.dataFault(s.regs[5], WriteOp, s.control.privilege, s.control.csrs)
    ensures SingleStep(env, s, ZERO).regs == s.regs[3 := SingleStep(env, s, ZERO).regs[3]]
    ensures Ends(s, SingleStep(env, s, ZERO), stores, s.control.reserved.Contains(RangeAt(s.regs[5], stores)))
  {
    hide Executed, SingleStep, RangeAt, WriteBytes, MaskOk, Requested, PairProgram, SignalsOf, FetchedAt, NumRs, NumRt,
      NumRd, FlagsOf, Has, MemoryStage, Span.Range;
    var inst := StoreInstruction(stores);
    PairFetched(env, s.control, a, loads, stores, s.pc);
    PairExecutes(env, s, inst);
    PairSignals(env, inst);
    StoreCompletes(env, s.memory, s.control, Executed(env, s));
    ConditionalStore(env, s, ZERO);
  }

  ghost predicate NeverFaults(env: Env) {
    forall x, op, privilege, csrs :: !env.dataFault(x, op, privilege, csrs)
  }

  lemma LoadAccess(env: Env, m: Memory, c: Control, e: ExecuteInterstage)
    requires NeverFaults(env) && e.excause == NoException && e.signals.memctl.LoadReserved? && e.signals.memread
    ensures
      var access := DataAccess(env, m, c, e);
      access.memory == m && access.reserved == RangeAt(e.aluVal, e.signals.memctl.wide) && !access.fault
  {
    hide RangeAt, WriteBytes, Read32, Read64, SignExtend32;
  }

  /** An instruction that writes no CSR and does not return leaves what fetching depends on. */
  lemma PlainControl(env: Env, c: Control, reserved: AddressRange, e: ExecuteInterstage)
    requires !e.signals.csrWrite && !e.signals.xret
    ensures
      var c' := ControlAfter(env, c, reserved, e);
      && c'.reserved == reserved && c'.privilege == c.privilege && c'.checkMask == c.checkMask
      && Requested(c') == Requested(c)
  {
    hide WriteInternal, ExceptionReturn, CoreInterruptRequest, Offset;
    CountSeesSame(env.xlen, c.csrs, c.privilege, Offset(c.csrs[MINSTRET], 1));
  }

  lemma LoadRetires(env: Env, s: ArchState, e: ExecuteInterstage)
    requires NeverFaults(env) && e.excause == NoException && e.signals.memctl.LoadReserved? && e.signals.memread
    requires !e.signals.csrWrite && !e.signals.xret && e.numRd == 4
    requires !e.signals.branchBxx && !e.signals.branchJal && !e.signals.branchJalr
    ensures
      var s' := Retire(env, s, e);
      && s'.pc == e.nextInstAddr && s'.memory == s.memory && s'.regs[5] == s.regs[5] && s'.regs[2] == s.regs[2]
      && s'.control.reserved == RangeAt(e.aluVal, e.signals.memctl.wide) && s'.control.privilege == s.control.privilege
      && s'.control.checkMask == s.control.checkMask && Requested(s'.control) == Requested(s.control)
  {
    hide RangeAt, ReturnAddress, WritebackValue, ControlAfter, DataAccess, HandleException, Requested, NeverFaults;
    LoadAccess(env, s.memory, s.control, e);
    PlainControl(env, s.control, DataAccess(env, s.memory, s.control, e).reserved, e);
  }

  lemma LoadStep(env: Env, s: ArchState, a: Word, loads: bool, stores: bool)
    requires RunsPair(env, s, a, loads, stores) && s.pc == a && NeverFaults(env)
    ensures
      var s' := SingleStep(env, s, ZERO);
      && s'.pc == Offset(a, 4) && s'.memory == s.memory && s'.regs[5] == s.regs[5] && s'.regs[2] == s.regs[2]
      && s'.control.reserved == RangeAt(s.regs[1], loads)
      && MaskOk(env, s'.control) && Requested(s'.control) == NoException
  {
    hide SingleExecute, RangeAt, MaskFor, Requested, PairProgram, SignalsOf, FetchedAt, NumRs, NumRt, NumRd, FlagsOf,
      Has, Offset, EMPTY_RANGE, Retire, NeverFaults;
    var inst := LoadInstruction(loads);
    PairFetched(env, s.control, a, loads, stores, s.pc);
    PairExecutes(env, s, inst);
    PairSignals(env, inst);
    LoadRetires(env, s, Executed(env, s));
  }

  /** The pair: the store-conditional succeeds exactly when the ends of its range lie in the reserved one. */
  lemma PairRun(env: Env, s: ArchState, a: Word, loads: bool, stores: bool)
    requires RunsPair(env, s, a, loads, stores) && s.pc == a && NeverFaults(env)
    ensures Ends(s, At(env, s, 2), stores, SpanAt(s.regs[1], loads).Range().Contains(SpanAt(s.regs[5], stores).Range()))
  {
    hide SingleStep, SingleRun, RangeAt, MaskOk, Requested, PairProgram, Offset, WriteBytes;
    LoadStep(env, s, a, loads, stores);
    NotItself(a);
    StoreStep(env, SingleStep(env, s, ZERO), a, loads, stores);
    SingleTwice(env, s, ZERO, ZERO);
  }

  /** lr.w at 0x1000, then sc.w at 2^64 - 2: no byte of it is reserved, yet it stores and reports success. */
  lemma DisjointStoreSucceeds(env: Env, s: ArchState)
    requires RunsPair(env, s, s.pc, false, false) && NeverFaults(env)
    requires s.regs[1] == Word(0x1000) && s.regs[5] == Word(0xffff_ffff_ffff_fffe)
    ensures forall b :: !(SpanAt(s.regs[1], false).Has(b) && SpanAt(s.regs[5], false).Has(b))
    ensures Ends(s, At(env, s, 2), false, true)
  {
    hide RunsPair, Ends, At, Span.Has, Span.Byte;
    PairRun(env, s, s.pc, false, false);
    var r, access := SpanAt(s.regs[1], false), SpanAt(s.regs[5], false);
    assert r == Span(0x1000, 4) && access == Span(TWO_64 - 2, 4);
    ContainsIff(r, access);
    forall b: nat ensures !(r.Has(b) && access.Has(b)) {
      if b < TWO_64 {
        HasIff(r, b);
        HasIff(access, b);
      } else if r.Has(b) {
        HasBelow(r, b);
      }
    }
  }

  lemma HasBelow(s: Span, b: nat)
    requires s.Has(b)
    ensures b < TWO_64
  {
  }

  /** lr.d at 2^64 - 4, then sc.w at 0: all its bytes are reserved, yet it stores nothing and reports failure. */
  lemma ReservedStoreFails(env: Env, s: ArchState)
    requires RunsPair(env, s, s.pc, true, false) && NeverFaults(env)
    requires s.regs[1] == Word(0xffff_ffff_ffff_fffc) && s.regs[5] == ZERO
    ensures SpanAt(s.regs[1], true).Includes(SpanAt(s.regs[5], false))
    ensures Ends(s, At(env, s, 2), false, false)
  {
    hide RunsPair, Ends, At, Span.Includes, Span.Byte;
    PairRun(env, s, s.pc, true, false);
    var r, access := SpanAt(s.regs[1], true), SpanAt(s.regs[5], false);
    assert r == Span(TWO_64 - 4, 8) && access == Span(0, 4);
    IncludesIff(r, access);
    ContainsIff(r, access);
  }

  /** With nothing reserved, a store-conditional that ends at address zero stores and reports success. */
  lemma UnreservedStoreSucceeds(env: Env, s: ArchState, a: Word, loads: bool, stores: bool)
    requires RunsPair(env, s, a, loads, stores) && s.pc != a
    requires !env.dataFault(s.regs[5], WriteOp, s.control.privilege, s.control.csrs)
    requires s.regs[5] == Word(if stores then 0xffff_ffff_ffff_fff9 else 0xffff_ffff_ffff_fffd)
    ensures Ends(s, SingleStep(env, s, ZERO), stores, true)
    ensures SingleStep(env, s, ZERO).regs == s.regs[3 := ZERO]
  {
    hide SingleStep, MaskOk, Requested, PairProgram, WriteBytes, Span.Byte;
    StoreStep(env, s, a, loads, stores);
    var access := SpanAt(s.regs[5], stores);
    assert access == if stores then Span(TWO_64 - 7, 8) else Span(TWO_64 - 3, 4);
    EmptyContains(access);
  }
}
