/** The pseudo-instructions li, la, call and tail: two instructions with the halves of a value patched in. */
module PseudoInstructions {
  import opened Words
  import opened Alu
  import opened BitFields
  import opened MachineDefs
  import opened CsrFunctions
  import opened InstructionSet
  import opened Stages
  import opened Refinement
  import opened ForwardingLimits

  // ---------------------------------------------------------------- instruction words

  /** The immediate field of lui and auipc, and that of addi and jalr. */
  const UPPER_FIELD := BitField(20, 12)
  const LOWER_FIELD := BitField(12, 20)

  /** Sign extension of a value of `usedBits` bits. */
  function Extend(value: bv32, usedBits: bv8): bv32
    requires 1 <= usedBits <= 32
  {
    value | !((value & (1 << (usedBits - 1))) - 1)
  }

  function UpperImmediate(dt: bv32): bv32 {
    Extend(UPPER_FIELD.Decode32(dt) << 12, 32)
  }

  function LowerImmediate(dt: bv32): bv32 {
    Extend(LOWER_FIELD.Decode32(dt), 12)
  }

  datatype Modifier = ComposedUpper | ComposedLower

  /**
   * The half of a value that goes into one of the two instructions; the upper half makes up for the lower
   * one's sign.
   */
  function Modify(m: Modifier, value: bv64): bv64 {
    match m
    case ComposedUpper => ((value >> 12) & 0xf_ffff) + ((value >> 11) & 1)
    case ComposedLower => value & 0xfff
  }

  function FieldOf(m: Modifier): BitField {
    match m
    case ComposedUpper => UPPER_FIELD
    case ComposedLower => LOWER_FIELD
  }

  function Cleared(dt: bv32, field: BitField): bv32
    requires field.Fits(32)
  {
    dt & !field.Encode32(0xffff_ffff)
  }

  function Inserted(dt: bv32, field: BitField, value: bv64): bv32
    requires field.Fits(32)
  {
    dt | field.Encode32((value & 0xffff_ffff) as bv32)
  }

  function Patch(dt: bv32, m: Modifier, value: bv64): bv32 {
    Inserted(Cleared(dt, FieldOf(m)), FieldOf(m), Modify(m, value))
  }

  class InstructionWord {
    var dt: bv32

    constructor (dt: bv32)
      ensures this.dt == dt
    {
      this.dt := dt;
    }

    /** Replaces the field of a composed immediate once its value is known. */
    method Update(value: bv64, offset: bv64, m: Modifier)
      modifies this
      ensures dt == Patch(old(dt), m, Add(value, offset))
    {
      hide Add, Modify, Cleared, Inserted;
      var field := FieldOf(m);
      dt := Cleared(dt, field);
      var val := Add(value, offset);
      dt := Inserted(dt, field, Modify(m, val));
    }
  }

  /** An immediate as a register value. */
  function AsRegister(immediate: bv32): Word {
    Word(SignExtend32(immediate as bv64))
  }

  /** What the two patched instructions add. */
  function UpperPart(value: bv64): bv64 {
    (Modify(ComposedUpper, value) << 12) & 0xffff_ffff
  }

  function LowerPart(value: bv64): bv64 {
    ((value & 0xfff) ^ 0x800) - 0x800
  }

  lemma UpperPatched(dt: bv32, value: bv64)
    ensures UpperImmediate(Patch(dt, ComposedUpper, value)) as bv64 == UpperPart(value)
  {
  }

  lemma LowerField(dt: bv32, value: bv64)
    ensures LOWER_FIELD.Decode32(Patch(dt, ComposedLower, value)) == (value & 0xfff) as bv32
  {
  }

  lemma LowerExtends(value: bv64)
    ensures SignExtend32(Extend((value & 0xfff) as bv32, 12) as bv64) == LowerPart(value)
  {
  }

  lemma LowerPatched(dt: bv32, value: bv64)
    ensures SignExtend32(LowerImmediate(Patch(dt, ComposedLower, value)) as bv64) == LowerPart(value)
  {
    hide Patch, SignExtend32, Extend, LowerPart;
    LowerField(dt, value);
    LowerExtends(value);
  }

  lemma PartsRebuild(value: bv64)
    ensures Low32(Add(UpperPart(value), LowerPart(value))) == Low32(value)
  {
  }

  /** The two immediates, as the cores extend them, add up to the value modulo 2^32. */
  lemma HalvesRebuild(dt0: bv32, dt1: bv32, value: bv64)
    ensures
      var upper := AsRegister(UpperImmediate(Patch(dt0, ComposedUpper, value)));
      var lower := AsRegister(LowerImmediate(Patch(dt1, ComposedLower, value)));
      Low32(Plus(upper, lower).bits) == Low32(value)
  {
    hide Patch, SignExtend32, UpperPart, LowerPart, Low32, Add, UpperImmediate, LowerImmediate;
    UpperPatched(dt0, value);
    LowerPatched(dt1, value);
    var u, l := UpperPart(value), LowerPart(value);
    SignExtensionKeepsLow(u);
    LowOfLowSum(SignExtend32(u), l);
    LowOfLowSum(u, l);
    PartsRebuild(value);
  }

  /** Patching changes nothing but the field: opcode and registers stay. */
  lemma PatchKeepsRest(dt: bv32, m: Modifier, value: bv64)
    ensures Cleared(Patch(dt, m, value), FieldOf(m)) == Cleared(dt, FieldOf(m))
  {
  }

  // ---------------------------------------------------------------- executing them

  /** The instructions that only put a sum into a register. */
  predicate IsSum(inst: Instruction) {
    inst.opcode == Lui || inst.opcode == Auipc || inst.opcode == OpImm(ADD, false, false)
  }

  lemma SumSignals(env: Env, inst: Instruction)
    requires IsSum(inst)
    ensures
      var g := SignalsOf(env, inst);
      && g.component == BasicAlu(ADD) && g.wOperation == (env.xlen != Xlen64) && g.alusrc && !g.csrToAlu && !g.aluMod
      && g.aluPc == (inst.opcode == Auipc) && g.regwrite && !g.memread && g.memctl == AccessNone && !g.xret
      && !g.csrWrite
      && !g.branchBxx && !g.branchJal && !g.branchJalr
    ensures NumRd(inst) == inst.rd && NumRs(inst) == (if inst.opcode == OpImm(ADD, false, false) then inst.rs else 0)
    ensures !Has(FlagsOf(inst.opcode), IMF_ALU_RS_ID)
  {
  }

  lemma SumLegal(env: Env, c: Control, inst: Instruction)
    requires MaskOk(env, c) && IsSum(inst)
    ensures DecodedCause(inst, NoException, c) == NoException
  {
  }

  /** The base the immediate is added to. */
  function SumBase(s: ArchState, inst: Instruction): Word {
    if inst.opcode == Auipc then s.pc else if inst.opcode == Lui then ZERO else ReadGp(s.regs, inst.rs)
  }

  lemma SumExecutes(env: Env, s: ArchState, inst: Instruction, predicted: Word)
    requires IsSum(inst) && MaskOk(env, s.control)
    requires FetchedAt(env, s.control, s.pc) == Fetched(inst, NoException)
    ensures
      var e := SingleExecute(env, s, predicted);
      && e.excause == NoException && e.aluVal == Truncate(env.xlen, Plus(SumBase(s, inst), inst.immediate))
  {
    hide DecodedCause, Operate, TruncateBits, SignalsOf, NumRs, NumRt, NumRd, Add, FlagsOf, Has, CsrReadValue, MaskOk;
    SumSignals(env, inst);
    SumLegal(env, s.control, inst);
    AluAdds(env.xlen, SumBase(s, inst).bits, inst.immediate.bits);
  }

  lemma SumStep(env: Env, s: ArchState, inst: Instruction)
    requires IsSum(inst) && MaskOk(env, s.control)
    requires FetchedAt(env, s.control, s.pc) == Fetched(inst, NoException)
    ensures
      var s' := SingleStep(env, s, Offset(s.pc, 4));
      && s'.pc == Offset(s.pc, 4) && s'.memory == s.memory
      && s'.regs == WriteGp(s.regs, inst.rd, Truncate(env.xlen, Plus(SumBase(s, inst), inst.immediate)))
      && MaskOk(env, s'.control) && s'.control.privilege == s.control.privilege && SeesSame(s'.control, s.control)
  {
    hide MemoryStage, Decode, Execute, DecodedCause, MaskFor, SignalsOf, NumRs, NumRt, NumRd, SingleExecute,
      HandleException, Truncate, AluResult, Plus, WriteGp;
    var next := Offset(s.pc, 4);
    var e := SingleExecute(env, s, next);
    SumExecutes(env, s, inst, next);
    SingleExecuteFields(env, s, next);
    SingleExecuteCopies(env, s, next);
    SumSignals(env, inst);
    NextAddress(e);
    PlainOutcome(env, s.memory, s.control, e);
    NoRedirectKeepsControl(env, s.memory, s.control, e);
    NoRedirectNoException(env, s.memory, s.control, e);
    RetiredResult(env, s, next);
    PlainMemory(env, s.memory, s.control, e);
  }

  lemma PlainMemory(env: Env, m: Memory, c: Control, e: ExecuteInterstage)
    requires e.signals.memctl == AccessNone
    ensures MemoryStage(env, m, c, e).memory == m
  {
    hide ControlAfter, ReturnAddress, WritebackValue, ComputedNextInstAddr;
    NoAccess(env, m, c, e);
  }

  lemma JalrStep(env: Env, s: ArchState, inst: Instruction, predicted: Word)
    requires inst.opcode == Jalr && MaskOk(env, s.control)
    requires FetchedAt(env, s.control, s.pc) == Fetched(inst, NoException)
    ensures
      var s' := SingleStep(env, s, predicted);
      && s'.pc == Truncate(env.xlen, Plus(ReadGp(s.regs, inst.rs), inst.immediate))
      && s'.regs == WriteGp(s.regs, inst.rd, Truncate(env.xlen, Offset(s.pc, 4)))
  {
    hide Decode, Execute, DecodedCause, MaskFor, SignalsOf, NumRs, NumRt, NumRd, SingleExecute, HandleException,
      Truncate, AluResult, Plus, WriteGp, ControlAfter, ReturnAddress, ComputedNextInstAddr, WritebackValue,
      DataAccess;
    var e := SingleExecute(env, s, predicted);
    SingleExecuteFields(env, s, predicted);
    SingleExecuteCopies(env, s, predicted);
    DecodedCauseOf(env, s.regs, s.control, FetchAt(env, s.control, s.pc, predicted));
    AlwaysLegal(env, s.control, inst);
    AdderSignals(env, inst);
    NoAccess(env, s.memory, s.control, e);
    JumpTarget(env, s, predicted);
    JalrAlu(env, s, predicted);
    WrittenBack(env, s, predicted);
  }

  // ---- sums modulo 2^32

  lemma LowOfTruncated(xlen: Xlen, v: bv64)
    ensures Low32(TruncateBits(xlen, v)) == Low32(v)
  {
    hide Low32;
    LowTwice(v);
  }

  /** Truncating on the way does not show in the low 32 bits of a sum. */
  lemma LowOfTruncatedSum(xlen: Xlen, a: Word, i: Word)
    ensures Low32(Truncate(xlen, Plus(Truncate(xlen, a), i)).bits) == Low32(Plus(a, i).bits)
  {
    hide Low32, Add, TruncateBits;
    LowOfTruncated(xlen, Plus(Truncate(xlen, a), i).bits);
    LowOfTruncated(xlen, a.bits);
    LowOfLowSum(TruncateBits(xlen, a.bits), i.bits);
    LowOfLowSum(a.bits, i.bits);
  }

  function Negated(a: bv64): bv64 {
    0 - a
  }

  lemma AddMoves(a: bv64, b: bv64, c: bv64)
    ensures Add(a + b, c) == Add(b + c, a)
  {
    hide Add, Sum;
    AddIsSum(a, b, c);
    AddIsSum(b, c, a);
    SumSwaps(a, b, c);
  }

  lemma AddRotates(a: bv64, b: bv64, c: bv64)
    ensures Add(Add(a, b), c) == Add(Add(b, c), a)
  {
    hide Add;
    AddTwice(a, b, c);
    AddMoves(a, b, c);
    AddTwice(b, c, a);
  }

  lemma AddNegation(v: bv64, a: bv64)
    ensures Add(v + (0 - a), a) == v
  {
  }

  lemma NegationCancels(v: bv64, a: bv64)
    ensures Add(Add(v, Negated(a)), a) == v
  {
    hide Add;
    AddTwice(v, 0 - a, a);
    AddNegation(v, a);
  }

  lemma AddCancels(a: bv64, b: bv64, c: bv64)
    ensures Add(a, c) == Add(b, c) ==> a == b
  {
    hide Add, Negated;
    UndoesAdding(a, c);
    UndoesAdding(b, c);
  }

  lemma AddNegated(a: bv64, c: bv64)
    ensures Add(a + c, 0 - c) == a
  {
  }

  lemma UndoesAdding(a: bv64, c: bv64)
    ensures Add(Add(a, c), Negated(c)) == a
  {
    hide Add;
    AddTwice(a, c, 0 - c);
    AddNegated(a, c);
  }

  /** A base and two parts of the distance to a value, which were computed from that base, give the value. */
  lemma RelativeRebuilds(base: Word, upper: Word, lower: Word, value: bv64)
    requires Low32(Plus(upper, lower).bits) == Low32(Add(value, Negated(base.bits)))
    ensures Low32(Plus(Plus(base, upper), lower).bits) == Low32(value)
  {
    hide Low32, Add, Negated;
    AddRotates(base.bits, upper.bits, lower.bits);
    LowOfLowSum(Add(upper.bits, lower.bits), base.bits);
    LowOfLowSum(Add(value, Negated(base.bits)), base.bits);
    NegationCancels(value, base.bits);
  }

  // ---------------------------------------------------------------- the meaning of the pseudo-instructions

  /** The program has `first` at `s.pc` and `second` behind it. */
  predicate Holds(env: Env, s: ArchState, first: Instruction, second: Instruction) {
    && MaskOk(env, s.control)
    && FetchedAt(env, s.control, s.pc) == Fetched(first, NoException)
    && FetchedAt(env, s.control, Offset(s.pc, 4)) == Fetched(second, NoException)
  }

  function WithUpper(op: Opcode, rd: RegisterId, dt: bv32, value: bv64): Instruction {
    Instruction(op, rd, 0, 0, AsRegister(UpperImmediate(Patch(dt, ComposedUpper, value))), 0)
  }

  function WithLower(op: Opcode, rd: RegisterId, rs: RegisterId, dt: bv32, value: bv64): Instruction {
    Instruction(op, rd, rs, 0, AsRegister(LowerImmediate(Patch(dt, ComposedLower, value))), 0)
  }

  lemma ReadWritten(regs: Registers, r: RegisterId, v: Word)
    requires r != 0
    ensures ReadGp(WriteGp(regs, r, v), r) == v
  {
  }

  lemma FetchUnchanged(env: Env, c: Control, d: Control, pc: Word)
    requires SeesSame(c, d)
    ensures FetchedAt(env, c, pc) == FetchedAt(env, d, pc)
  {
    hide Requested;
  }

  /** A sum into `rd` and a second one on top of it. */
  lemma TwoSums(env: Env, s: ArchState, rd: RegisterId, first: Instruction, second: Instruction)
    requires rd != 0 && Holds(env, s, first, second)
    requires IsSum(first) && first.rd == rd && second.opcode == OpImm(ADD, false, false) && second.rd == second.rs == rd
    ensures ReadGp(SingleRun(env, s, 0, 2).regs, rd)
            == Truncate(env.xlen,
                        Plus(Truncate(env.xlen, Plus(SumBase(s, first), first.immediate)), second.immediate))
  {
    hide SingleStep, SingleRun, Truncate, Plus, ReadGp, WriteGp, MaskOk, FetchedAt, SeesSame, Offset;
    var next := Offset(s.pc, 4);
    var s1 := SingleStep(env, s, next);
    SumStep(env, s, first);
    FetchUnchanged(env, s1.control, s.control, next);
    SumStep(env, s1, second);
    SingleTwice(env, s, next, Offset(next, 4));
    ReadWritten(s.regs, rd, Truncate(env.xlen, Plus(SumBase(s, first), first.immediate)));
    ReadWritten(s1.regs, rd, Truncate(env.xlen, Plus(ReadGp(s1.regs, rd), second.immediate)));
  }

  /** A sum into x6 and a jump through it. */
  lemma SumThenJump(env: Env, s: ArchState, first: Instruction, second: Instruction)
    requires Holds(env, s, first, second) && IsSum(first) && first.rd == 6 && second.opcode == Jalr && second.rs == 6
    ensures
      var s' := SingleRun(env, s, 0, 2);
      && s'.pc == Truncate(env.xlen,
                           Plus(Truncate(env.xlen, Plus(SumBase(s, first), first.immediate)), second.immediate))
      && (second.rd != 0 ==> ReadGp(s'.regs, second.rd) == Truncate(env.xlen, Offset(Offset(s.pc, 4), 4)))
  {
    hide SingleStep, SingleRun, Truncate, Plus, ReadGp, WriteGp, MaskOk, FetchedAt, SeesSame, Offset;
    var next := Offset(s.pc, 4);
    var s1 := SingleStep(env, s, next);
    SumStep(env, s, first);
    FetchUnchanged(env, s1.control, s.control, next);
    JalrStep(env, s1, second, ZERO);
    SingleTwice(env, s, next, ZERO);
    ReadWritten(s.regs, 6, Truncate(env.xlen, Plus(SumBase(s, first), first.immediate)));
    if second.rd != 0 {
      ReadWritten(s1.regs, second.rd, Truncate(env.xlen, Offset(next, 4)));
    }
  }

  /** The two immediates of `li rd, value`, as the cores extend them. */
  function LiUpper(dt: bv32, value: bv64): Word {
    AsRegister(UpperImmediate(Patch(dt, ComposedUpper, value)))
  }

  function LiLower(dt: bv32, value: bv64): Word {
    AsRegister(LowerImmediate(Patch(dt, ComposedLower, value)))
  }

  lemma LiSum(env: Env, s: ArchState, rd: RegisterId, value: bv64, dt0: bv32, dt1: bv32)
    requires rd != 0
    requires Holds(env, s, WithUpper(Lui, rd, dt0, value), WithLower(OpImm(ADD, false, false), rd, rd, dt1, value))
    ensures ReadGp(SingleRun(env, s, 0, 2).regs, rd)
            == Truncate(env.xlen, Plus(Truncate(env.xlen, LiUpper(dt0, value)), LiLower(dt1, value)))
  {
    hide SingleRun, Truncate, Plus, AsRegister, UpperImmediate, LowerImmediate, Patch, ReadGp, Holds;
    var first := WithUpper(Lui, rd, dt0, value);
    TwoSums(env, s, rd, first, WithLower(OpImm(ADD, false, false), rd, rd, dt1, value));
    ZeroFirst(first.immediate);
  }

  /** `li rd, value`: lui and addi, whatever else their words hold, load the value modulo 2^32. */
  lemma LiLoads(env: Env, s: ArchState, rd: RegisterId, value: bv64, dt0: bv32, dt1: bv32)
    requires rd != 0
    requires Holds(env, s, WithUpper(Lui, rd, dt0, value), WithLower(OpImm(ADD, false, false), rd, rd, dt1, value))
    ensures Low32(ReadGp(SingleRun(env, s, 0, 2).regs, rd).bits) == Low32(value)
  {
    hide SingleRun, Truncate, Plus, AsRegister, UpperImmediate, LowerImmediate, Patch, ReadGp, Holds, Low32;
    LiSum(env, s, rd, value, dt0, dt1);
    LowOfTruncatedSum(env.xlen, LiUpper(dt0, value), LiLower(dt1, value));
    HalvesRebuild(dt0, dt1, value);
  }

  /** Whether the upper half, rounded up for a negative lower one, reaches the sign bit. */
  predicate RoundsToSign(value: bv64) {
    0x7fff_f800 <= Low32(value) <= 0x7fff_ffff
  }

  /** Whether the lower half is negative. */
  predicate RoundsUp(value: bv64) {
    value & 0x800 != 0
  }

  function Page(value: bv64): bv64 {
    value & 0xffff_f000
  }

  function NextPage(value: bv64): bv64 {
    ((value & 0xffff_f000) + 0x1000) & 0xffff_ffff
  }

  function InPage(value: bv64): bv64 {
    value & 0xfff
  }

  function Lowered(v: bv64): bv64 {
    v - 0x1000
  }

  lemma UpperKept(value: bv64)
    ensures !RoundsUp(value) ==> UpperPart(value) == Page(value)
  {
  }

  lemma UpperRounded(value: bv64)
    ensures RoundsUp(value) ==> UpperPart(value) == NextPage(value)
  {
  }

  lemma LowerKept(value: bv64)
    ensures !RoundsUp(value) ==> LowerPart(value) == InPage(value)
  {
  }

  lemma LowerLowered(value: bv64)
    ensures RoundsUp(value) ==> LowerPart(value) == Lowered(InPage(value))
  {
  }

  lemma ExtendedFlipped(value: bv64)
    ensures SignExtend32(value) == Add(Flipped(value), 0xffff_ffff_8000_0000)
  {
    hide Add, Flipped, Unbiased;
    UnbiasedAdds(Flipped(value));
  }

  lemma UnbiasedAdds(v: bv64)
    ensures Unbiased(v) == Add(v, 0xffff_ffff_8000_0000)
  {
  }

  lemma FlippedInPage(value: bv64)
    ensures Flipped(value) == Add(Flipped(Page(value)), InPage(value))
  {
  }

  lemma FlippedNext(value: bv64)
    ensures Page(value) != 0x7fff_f000 ==> Flipped(NextPage(value)) == Add(Flipped(Page(value)), 0x1000)
  {
  }

  lemma AddSwapsLast(a: bv64, b: bv64, c: bv64)
    ensures Add(Add(a, b), c) == Add(Add(a, c), b)
  {
    hide Add;
    AddRotates(a, b, c);
    AddRotates(b, c, a);
    AddSwaps(c, a);
  }

  lemma ExtendedInPage(value: bv64)
    ensures SignExtend32(value) == Add(SignExtend32(Page(value)), InPage(value))
  {
    hide *;
    ExtendedFlipped(value);
    ExtendedFlipped(Page(value));
    FlippedInPage(value);
    AddSwapsLast(Flipped(Page(value)), InPage(value), 0xffff_ffff_8000_0000);
  }

  lemma ExtendedNext(value: bv64)
    ensures Page(value) != 0x7fff_f000 ==> SignExtend32(NextPage(value)) == Add(SignExtend32(Page(value)), 0x1000)
  {
    hide *;
    ExtendedFlipped(NextPage(value));
    ExtendedFlipped(Page(value));
    FlippedNext(value);
    AddSwapsLast(Flipped(Page(value)), 0x1000, 0xffff_ffff_8000_0000);
  }

  lemma LastPage(value: bv64)
    ensures Page(value) == 0x7fff_f000 ==>
              SignExtend32(NextPage(value)) == 0xffff_ffff_8000_0000 && SignExtend32(Page(value)) == 0x7fff_f000
  {
  }

  lemma RoundsToSignIff(value: bv64)
    ensures RoundsToSign(value) <==> RoundsUp(value) && Page(value) == 0x7fff_f000
  {
  }

  lemma Relowered(v: bv64)
    ensures Add(0x1000, Lowered(v)) == v
  {
  }

  lemma AddSwaps(a: bv64, b: bv64)
    ensures Add(a, b) == Add(b, a)
  {
  }

  lemma LastPageDiffers(v: bv64)
    ensures Add(0xffff_ffff_8000_0000, Lowered(v)) != Add(0x7fff_f000, v)
  {
  }

  lemma SignedParts(value: bv64)
    ensures Add(SignExtend32(UpperPart(value)), LowerPart(value)) == SignExtend32(value) <==> !RoundsToSign(value)
  {
    hide *;
    var base, rest := SignExtend32(Page(value)), InPage(value);
    UpperKept(value);
    UpperRounded(value);
    LowerKept(value);
    LowerLowered(value);
    ExtendedInPage(value);
    ExtendedNext(value);
    LastPage(value);
    LastPageDiffers(rest);
    RoundsToSignIff(value);
    AddRotates(base, 0x1000, Lowered(rest));
    Relowered(rest);
    AddSwaps(rest, base);
  }

  /** The low 32 bits of a value below 32 ones. */
  function BelowOnes(value: bv64): bv64 {
    (value & 0xffff_ffff) | 0xffff_ffff_0000_0000
  }

  lemma LastPageRounds(value: bv64)
    ensures Page(value) == 0x7fff_f000 ==> Add(0xffff_ffff_8000_0000, Lowered(InPage(value))) == BelowOnes(value)
  {
  }

  /** What the two immediates of a value add up to on RV64. */
  function Composed(value: bv64): bv64 {
    if RoundsToSign(value) then BelowOnes(value) else SignExtend32(value)
  }

  lemma PartsCompose(value: bv64)
    ensures Add(SignExtend32(UpperPart(value)), LowerPart(value)) == Composed(value)
  {
    hide Add, SignExtend32, UpperPart, LowerPart, RoundsToSign, BelowOnes, RoundsUp, Page, NextPage, InPage, Lowered;
    SignedParts(value);
    RoundsToSignIff(value);
    UpperRounded(value);
    LowerLowered(value);
    LastPage(value);
    LastPageRounds(value);
  }

  /** The signed numbers from -2^31 - 2048 to 2^31 - 2049. */
  predicate InReach(value: bv64) {
    value + 0x8000_0800 < 0x1_0000_0000
  }

  predicate Negative(value: bv64) {
    value & 0x8000_0000 != 0
  }

  function UpperWord(value: bv64): bv64 {
    value & 0xffff_ffff_0000_0000
  }

  lemma ExtendedPositive(value: bv64)
    ensures !Negative(value) ==> SignExtend32(value) == Low32(value)
  {
  }

  lemma ExtendedNegative(value: bv64)
    ensures Negative(value) ==> SignExtend32(value) == BelowOnes(value)
  {
  }

  lemma ZerosAbove(value: bv64)
    ensures Low32(value) == value <==> UpperWord(value) == 0
  {
  }

  lemma OnesAbove(value: bv64)
    ensures BelowOnes(value) == value <==> UpperWord(value) == 0xffff_ffff_0000_0000
  {
  }

  lemma RoundedInReach(value: bv64)
    ensures RoundsToSign(value) ==> (BelowOnes(value) == value <==> InReach(value))
  {
  }

  lemma OthersInReach(value: bv64)
    ensures !RoundsToSign(value) ==>
              (InReach(value) <==> UpperWord(value) == if Negative(value) then 0xffff_ffff_0000_0000 else 0)
  {
  }

  lemma ComposedIff(value: bv64)
    ensures Composed(value) == value <==> InReach(value)
  {
    hide SignExtend32, Low32, RoundsToSign, BelowOnes, InReach, Negative, UpperWord;
    ExtendedPositive(value);
    ExtendedNegative(value);
    ZerosAbove(value);
    OnesAbove(value);
    RoundedInReach(value);
    OthersInReach(value);
  }

  lemma ShortWord(xlen: Xlen, v: Word)
    ensures xlen == Xlen32 ==> Truncate(xlen, v) == Word(Low32(v.bits))
    ensures xlen == Xlen64 ==> Truncate(xlen, v) == v
  {
  }

  lemma LiParts(dt0: bv32, dt1: bv32, value: bv64)
    ensures LiUpper(dt0, value).bits == SignExtend32(UpperPart(value)) && LiLower(dt1, value).bits == LowerPart(value)
  {
    hide Patch, SignExtend32, UpperPart, LowerPart, UpperImmediate, LowerImmediate;
    UpperPatched(dt0, value);
    LowerPatched(dt1, value);
  }

  /**
   * On RV32 `li` loads the value's low 32 bits. On RV64 it loads those bits sign-extended, except for the 2048 values
   * from 0x7fff_f800 on, which come out below 32 ones; so it loads the value exactly if that is in reach.
   */
  lemma LiExact(env: Env, s: ArchState, rd: RegisterId, value: bv64, dt0: bv32, dt1: bv32)
    requires rd != 0
    requires Holds(env, s, WithUpper(Lui, rd, dt0, value), WithLower(OpImm(ADD, false, false), rd, rd, dt1, value))
    ensures env.xlen == Xlen32 ==> ReadGp(SingleRun(env, s, 0, 2).regs, rd).bits == Low32(value)
    ensures env.xlen == Xlen64 ==>
              var loaded := ReadGp(SingleRun(env, s, 0, 2).regs, rd).bits;
              && (loaded == SignExtend32(value) <==> !RoundsToSign(value))
              && (RoundsToSign(value) ==> loaded == BelowOnes(value))
              && (loaded == value <==> InReach(value))
  {
    hide SingleRun, Truncate, AsRegister, UpperImmediate, LowerImmediate, Patch, ReadGp, Holds, Low32, Add,
      SignExtend32, UpperPart, LowerPart, RoundsToSign, BelowOnes, InReach;
    LiSum(env, s, rd, value, dt0, dt1);
    if env.xlen == Xlen32 {
      LiLoads(env, s, rd, value, dt0, dt1);
      var sum := Plus(Truncate(env.xlen, LiUpper(dt0, value)), LiLower(dt1, value));
      ShortWord(env.xlen, sum);
      LowTwice(sum.bits);
    } else {
      ShortWord(env.xlen, LiUpper(dt0, value));
      ShortWord(env.xlen, Plus(LiUpper(dt0, value), LiLower(dt1, value)));
      LiParts(dt0, dt1, value);
      SignedParts(value);
      PartsCompose(value);
      ComposedIff(value);
    }
  }

  /** At `a` the first instruction of `li rd, value`, and everywhere else the second. */
  function LiProgram(a: Word, rd: RegisterId, value: bv64, dt0: bv32, dt1: bv32): (Word, Privilege, Word) -> Fetched {
    (x: Word, privilege: Privilege, satp: Word) =>
      Fetched(if x == a then WithUpper(Lui, rd, dt0, value)
              else WithLower(OpImm(ADD, false, false), rd, rd, dt1, value),
              NoException)
  }

  lemma LiFetched(env: Env, c: Control, a: Word, rd: RegisterId, value: bv64, dt0: bv32, dt1: bv32, x: Word)
    requires env.program == LiProgram(a, rd, value, dt0, dt1) && Requested(c) == NoException
    ensures FetchedAt(env, c, x)
            == Fetched(if x == a then WithUpper(Lui, rd, dt0, value)
                       else WithLower(OpImm(ADD, false, false), rd, rd, dt1, value),
                       NoException)
  {
    hide Requested, WithUpper, WithLower;
  }

  /** On RV64, from reset, `li rd, 0x7ffff800` leaves 0xffffffff7ffff800 in rd. */
  lemma LiWrong(env: Env, a: Word, rd: RegisterId, dt0: bv32, dt1: bv32)
    requires env.xlen == Xlen64 && rd != 0 && env.program == LiProgram(a, rd, 0x7fff_f800, dt0, dt1)
    ensures ReadGp(SingleRun(env, ResetState(env, a), 0, 2).regs, rd).bits == 0xffff_ffff_7fff_f800
  {
    hide SingleRun, MaskOk, Requested, WithUpper, WithLower, LiProgram, FetchedAt, ReadGp, Offset;
    var s := ResetState(env, a);
    ResetQuiet(env, a);
    NotItself(a);
    LiFetched(env, s.control, a, rd, 0x7fff_f800, dt0, dt1, a);
    LiFetched(env, s.control, a, rd, 0x7fff_f800, dt0, dt1, Offset(a, 4));
    LiExact(env, s, rd, 0x7fff_f800, dt0, dt1);
    assert RoundsToSign(0x7fff_f800) && BelowOnes(0x7fff_f800) == 0xffff_ffff_7fff_f800;
  }

  lemma ZeroFirst(w: Word)
    ensures Plus(ZERO, w) == w
  {
  }

  /** `la rd, symbol`: auipc and addi, with the distance to the symbol patched in. */
  lemma LaLoads(env: Env, s: ArchState, rd: RegisterId, value: bv64, dt0: bv32, dt1: bv32)
    requires rd != 0
    requires
      var distance := Add(value, Negated(s.pc.bits));
      Holds(env, s, WithUpper(Auipc, rd, dt0, distance), WithLower(OpImm(ADD, false, false), rd, rd, dt1, distance))
    ensures Low32(ReadGp(SingleRun(env, s, 0, 2).regs, rd).bits) == Low32(value)
  {
    hide SingleRun, Truncate, Plus, AsRegister, UpperImmediate, LowerImmediate, Patch, ReadGp, Holds, Low32, Add,
      Negated;
    var distance := Add(value, Negated(s.pc.bits));
    var first := WithUpper(Auipc, rd, dt0, distance);
    var second := WithLower(OpImm(ADD, false, false), rd, rd, dt1, distance);
    TwoSums(env, s, rd, first, second);
    LowOfTruncatedSum(env.xlen, Plus(s.pc, first.immediate), second.immediate);
    HalvesRebuild(dt0, dt1, distance);
    RelativeRebuilds(s.pc, first.immediate, second.immediate, value);
  }

  /** On RV64 a base and the two parts of a distance give the value exactly if the distance is in reach. */
  lemma RelativeIff(base: Word, value: bv64, dt0: bv32, dt1: bv32)
    ensures
      var distance := Add(value, Negated(base.bits));
      Plus(Plus(base, LiUpper(dt0, distance)), LiLower(dt1, distance)).bits == value <==> InReach(distance)
  {
    hide Add, Negated, SignExtend32, UpperPart, LowerPart, Composed, InReach, LiUpper, LiLower;
    var distance := Add(value, Negated(base.bits));
    var upper, lower := LiUpper(dt0, distance).bits, LiLower(dt1, distance).bits;
    LiParts(dt0, dt1, distance);
    PartsCompose(distance);
    ComposedIff(distance);
    AddRotates(base.bits, upper, lower);
    NegationCancels(value, base.bits);
    AddCancels(Add(upper, lower), distance, base.bits);
  }

  /** On RV64 `la` loads the address itself exactly if its distance is in reach. */
  lemma LaExact(env: Env, s: ArchState, rd: RegisterId, value: bv64, dt0: bv32, dt1: bv32)
    requires rd != 0
    requires
      var distance := Add(value, Negated(s.pc.bits));
      Holds(env, s, WithUpper(Auipc, rd, dt0, distance), WithLower(OpImm(ADD, false, false), rd, rd, dt1, distance))
    ensures env.xlen == Xlen64 ==>
              (ReadGp(SingleRun(env, s, 0, 2).regs, rd).bits == value <==> InReach(Add(value, Negated(s.pc.bits))))
  {
    hide SingleRun, Truncate, Plus, AsRegister, UpperImmediate, LowerImmediate, Patch, ReadGp, Holds, Add, Negated,
      InReach;
    if env.xlen == Xlen64 {
      var distance := Add(value, Negated(s.pc.bits));
      var first := WithUpper(Auipc, rd, dt0, distance);
      var second := WithLower(OpImm(ADD, false, false), rd, rd, dt1, distance);
      TwoSums(env, s, rd, first, second);
      ShortWord(env.xlen, Plus(s.pc, first.immediate));
      ShortWord(env.xlen, Plus(Plus(s.pc, first.immediate), second.immediate));
      RelativeIff(s.pc, value, dt0, dt1);
    }
  }

  /** `call symbol` links x1 and `tail symbol` links nothing; both end at the symbol modulo 2^32, by way of x6. */
  lemma CallJumps(env: Env, s: ArchState, link: RegisterId, value: bv64, dt0: bv32, dt1: bv32)
    requires link == 1 || link == 0
    requires
      var distance := Add(value, Negated(s.pc.bits));
      Holds(env, s, WithUpper(Auipc, 6, dt0, distance), WithLower(Jalr, link, 6, dt1, distance))
    ensures
      var s' := SingleRun(env, s, 0, 2);
      && Low32(s'.pc.bits) == Low32(value)
      && (link == 1 ==> ReadGp(s'.regs, 1) == Truncate(env.xlen, Offset(Offset(s.pc, 4), 4)))
  {
    hide SingleRun, Truncate, Plus, AsRegister, UpperImmediate, LowerImmediate, Patch, ReadGp, Holds, Low32, Add,
      Negated, Offset;
    var distance := Add(value, Negated(s.pc.bits));
    var first, second := WithUpper(Auipc, 6, dt0, distance), WithLower(Jalr, link, 6, dt1, distance);
    SumThenJump(env, s, first, second);
    LowOfTruncatedSum(env.xlen, Plus(s.pc, first.immediate), second.immediate);
    HalvesRebuild(dt0, dt1, distance);
    RelativeRebuilds(s.pc, first.immediate, second.immediate, value);
  }

  /** On RV64 `call` and `tail` end at the target itself exactly if its distance is in reach. */
  lemma CallExact(env: Env, s: ArchState, link: RegisterId, value: bv64, dt0: bv32, dt1: bv32)
    requires link == 1 || link == 0
    requires
      var distance := Add(value, Negated(s.pc.bits));
      Holds(env, s, WithUpper(Auipc, 6, dt0, distance), WithLower(Jalr, link, 6, dt1, distance))
    ensures env.xlen == Xlen64 ==>
              (SingleRun(env, s, 0, 2).pc.bits == value <==> InReach(Add(value, Negated(s.pc.bits))))
  {
    hide SingleRun, Truncate, Plus, AsRegister, UpperImmediate, LowerImmediate, Patch, ReadGp, Holds, Add, Negated,
      Offset, InReach;
    if env.xlen == Xlen64 {
      var distance := Add(value, Negated(s.pc.bits));
      var first, second := WithUpper(Auipc, 6, dt0, distance), WithLower(Jalr, link, 6, dt1, distance);
      SumThenJump(env, s, first, second);
      ShortWord(env.xlen, Plus(s.pc, first.immediate));
      ShortWord(env.xlen, Plus(Plus(s.pc, first.immediate), second.immediate));
      RelativeIff(s.pc, value, dt0, dt1);
    }
  }
}
