/**
 * The stage functions shared by both cores, the interstage registers, and one step of the
 * single-cycle and of the pipelined core as functions on states.
 */
module Stages {
  import opened Words
  import opened Alu
  import opened MachineDefs
  import opened CsrFunctions
  import opened InstructionSet

  // ---------------------------------------------------------------- memory and registers

  type Memory = bv64 -> bv8

  function Read8(m: Memory, a: bv64): bv64 {
    m(a) as bv64
  }

  function Read16(m: Memory, a: bv64): bv64 {
    OrBits(Read8(m, a), ShiftedLeft(Read8(m, Add(a, 1)), 8))
  }

  function Read32(m: Memory, a: bv64): bv64 {
    OrBits(Read16(m, a), ShiftedLeft(Read16(m, Add(a, 2)), 16))
  }

  function Read64(m: Memory, a: bv64): bv64 {
    OrBits(Read32(m, a), ShiftedLeft(Read32(m, Add(a, 4)), 32))
  }

  /** Writes the `size` low bytes of `v`, least significant byte first. */
  function WriteBytes(m: Memory, a: bv64, size: bv64, v: bv64): Memory
    requires size <= 8
  {
    (x: bv64) => if Within(x, a, size) then ByteOf(v, x, a) else m(x)
  }

  predicate Within(x: bv64, a: bv64, size: bv64) {
    Less(Difference(x, a), size)
  }

  /** The byte of `v` stored at address `x` when `v` starts at `a`. */
  function ByteOf(v: bv64, x: bv64, a: bv64): bv8 {
    ByteAt(v, Difference(x, a))
  }

  /** Byte `i` of a value. */
  function ByteAt(v: bv64, i: bv64): bv8 {
    ((v >> (((i & 7) << 3) as bv6)) & 0xff) as bv8
  }

  function ReadCtl(m: Memory, ctl: AccessControl, a: bv64): bv64 {
    match ctl
    case AccessI8 => SignExtend8(Read8(m, a))
    case AccessU8 => Read8(m, a)
    case AccessI16 => SignExtend16(Read16(m, a))
    case AccessU16 => Read16(m, a)
    case AccessI32 => SignExtend32(Read32(m, a))
    case AccessU32 => Read32(m, a)
    case AccessI64 => Read64(m, a)
    case AccessU64 => Read64(m, a)
    case _ => 0
  }

  function WriteCtl(m: Memory, ctl: AccessControl, a: bv64, v: bv64): Memory {
    match ctl
    case AccessI8 => WriteBytes(m, a, 1, v)
    case AccessU8 => WriteBytes(m, a, 1, v)
    case AccessI16 => WriteBytes(m, a, 2, v)
    case AccessU16 => WriteBytes(m, a, 2, v)
    case AccessI32 => WriteBytes(m, a, 4, v)
    case AccessU32 => WriteBytes(m, a, 4, v)
    case AccessI64 => WriteBytes(m, a, 8, v)
    case AccessU64 => WriteBytes(m, a, 8, v)
    case _ => m
  }

  type Registers = r: seq<Word> | |r| == 32 witness seq(32, _ => ZERO)

  function ReadGp(regs: Registers, r: RegisterId): Word {
    if r == 0 then ZERO else regs[r]
  }

  function WriteGp(regs: Registers, r: RegisterId, v: Word): Registers {
    if r == 0 then regs else regs[r := v]
  }

  // ---------------------------------------------------------------- environment and control

  datatype HazardUnit = HuNone | HuStall | HuStallForward

  datatype Fetched = Fetched(inst: Instruction, excause: ExceptionCause)

  /**
   * What a run does not change: the configuration, the program image as seen through address
   * translation, the data pages that fault, and the next-PC predictor. The predictor may answer
   * differently in every cycle.
   */
  datatype Env = Env(
    xlen: Xlen,
    isaA: bool,
    isaM: bool,
    hazardUnit: HazardUnit,
    program: (Word, Privilege, Word) -> Fetched,
    dataFault: (Word, AccessOp, Privilege, CsrFile) -> bool,
    predict: (nat, Instruction, Word) -> Word,
    stopOn: ExceptionCause -> bool,
    stepOver: ExceptionCause -> bool)

  /** Reservation range of LR/SC; empty when `first` is above `last`. */
  datatype AddressRange = AddressRange(first: nat, last: nat) {
    predicate Contains(other: AddressRange) {
      first <= other.first && other.last <= last
    }
  }

  const EMPTY_RANGE := AddressRange(1, 0)

  /** Control part of the core state: CSRs, privilege, the legality mask and the reservation. */
  datatype Control = Control(csrs: CsrFile, privilege: Privilege, checkMask: FlagMask, reserved: AddressRange)

  datatype FlagMask = FlagMask(bits: Flags)

  const PRIV_BITS: Flags := IMF_PRIV_M | IMF_PRIV_H | IMF_PRIV_S

  function UnsupportedFlags(env: Env): Flags {
    IMF_SUPPORTED | If(env.xlen == Xlen32, IMF_RV64) | If(!env.isaA, IMF_AMO) | If(!env.isaM, IMF_MUL)
  }

  function AllowedPrivilegeBits(p: Privilege): Flags {
    If(p.Level() >= Supervisor.Level(), IMF_PRIV_S)
    | If(p.Level() >= Hypervisor.Level(), IMF_PRIV_H)
    | If(p.Level() >= Machine.Level(), IMF_PRIV_M)
  }

  /** The mask with the privilege bits replaced by those level `p` may not use. */
  function MaskAt(mask: Flags, p: Privilege): Flags {
    (mask & !PRIV_BITS) | (PRIV_BITS & !AllowedPrivilegeBits(p))
  }

  function SetCurrentPrivilege(c: Control, p: Privilege): Control {
    c.(privilege := p, checkMask := FlagMask(MaskAt(c.checkMask.bits, p)))
  }

  predicate Illegal(flags: Flags, checkMask: FlagMask) {
    FlagsDiffer(flags, checkMask.bits)
  }

  predicate FlagsDiffer(flags: Flags, mask: Flags) {
    (flags ^ IMF_SUPPORTED) & mask != 0
  }

  // ---------------------------------------------------------------- interstage registers

  const STAGEADDR_NONE := Word(0xffff_ffff)

  datatype FetchInterstage = FetchInterstage(
    inst: Instruction,
    instAddr: Word,
    nextInstAddr: Word,
    predictedNextInstAddr: Word,
    excause: ExceptionCause,
    isValid: bool)

  const FLUSHED_FETCH := FetchInterstage(NOP, STAGEADDR_NONE, ZERO, ZERO, NoException, false)

  /** The control signals decode derives from the instruction alone. */
  datatype Signals = Signals(
    component: Component,
    memctl: AccessControl,
    memread: bool,
    memwrite: bool,
    alusrc: bool,
    regwrite: bool,
    aluReqRs: bool,
    aluReqRt: bool,
    branchBxx: bool,
    branchJal: bool,
    branchVal: bool,
    branchJalr: bool,
    wOperation: bool,
    aluMod: bool,
    aluPc: bool,
    csr: bool,
    csrToAlu: bool,
    csrWrite: bool,
    xret: bool,
    xretPrivilege: Privilege,
    amo: bool)

  const NO_SIGNALS := Signals(BasicAlu(ADD), AccessNone, false, false, false, false, false, false, false, false, false,
                              false, false, false, false, false, false, false, false, Unprivileged, false)

  datatype DecodeInterstage = DecodeInterstage(
    inst: Instruction,
    instAddr: Word,
    nextInstAddr: Word,
    predictedNextInstAddr: Word,
    valRs: Word,
    valRt: Word,
    immediateVal: Word,
    csrReadVal: Word,
    excause: ExceptionCause,
    numRs: RegisterId,
    numRt: RegisterId,
    numRd: RegisterId,
    signals: Signals,
    isValid: bool)

  const FLUSHED_DECODE := DecodeInterstage(NOP, STAGEADDR_NONE, ZERO, ZERO, ZERO, ZERO, ZERO, ZERO, NoException,
                                           0, 0, 0, NO_SIGNALS, false)

  datatype ExecuteInterstage = ExecuteInterstage(
    inst: Instruction,
    instAddr: Word,
    nextInstAddr: Word,
    predictedNextInstAddr: Word,
    branchJalTarget: Word,
    valRt: Word,
    aluVal: Word,
    csrReadVal: Word,
    excause: ExceptionCause,
    numRd: RegisterId,
    signals: Signals,
    isValid: bool)

  const FLUSHED_EXECUTE := ExecuteInterstage(NOP, STAGEADDR_NONE, ZERO, ZERO, ZERO, ZERO, ZERO, ZERO, NoException, 0,
                                             NO_SIGNALS, false)

  datatype MemoryInterstage = MemoryInterstage(
    inst: Instruction,
    instAddr: Word,
    nextInstAddr: Word,
    predictedNextInstAddr: Word,
    computedNextInstAddr: Word,
    memAddr: Word,
    towriteVal: Word,
    excause: ExceptionCause,
    numRd: RegisterId,
    regwrite: bool,
    isValid: bool,
    csrWritten: bool)

  const FLUSHED_MEMORY :=
    MemoryInterstage(NOP, STAGEADDR_NONE, ZERO, ZERO, ZERO, ZERO, ZERO, NoException, 0, false, false, false)

  // ---------------------------------------------------------------- stages

  /** The instruction at `pc` and its cause: that of the access, or else an interrupt the CSRs request. */
  function FetchedAt(env: Env, c: Control, pc: Word): Fetched {
    var f := env.program(pc, c.privilege, c.csrs[SATP]);
    if f.excause != NoException then f else Fetched(f.inst, Requested(c))
  }

  function Requested(c: Control): ExceptionCause {
    CoreInterruptRequest(c.csrs, c.privilege)
  }

  function FetchAt(env: Env, c: Control, pc: Word, predicted: Word): FetchInterstage {
    var f := FetchedAt(env, c, pc);
    FetchInterstage(f.inst, pc, Offset(pc, 4), predicted, f.excause, true)
  }

  function Fetch(env: Env, c: Control, pc: Word, cycle: nat, stopIf: bool): FetchInterstage {
    if stopIf then FLUSHED_FETCH
    else FetchAt(env, c, pc, env.predict(cycle, env.program(pc, c.privilege, c.csrs[SATP]).inst, pc))
  }

  function Has(flags: Flags, bit: Flags): bool {
    flags & bit != 0
  }

  function NumRs(inst: Instruction): RegisterId {
    if Has(FlagsOf(inst.opcode), IMF_ALU_REQ_RS | IMF_ALU_RS_ID) then inst.rs else 0
  }

  function NumRt(inst: Instruction): RegisterId {
    if Has(FlagsOf(inst.opcode), IMF_ALU_REQ_RT) then inst.rt else 0
  }

  function NumRd(inst: Instruction): RegisterId {
    if Has(FlagsOf(inst.opcode), IMF_REGWRITE) then inst.rd else 0
  }

  function XretPrivilege(flags: Flags): Privilege {
    if !Has(flags, IMF_XRET) then Unprivileged
    else if Has(flags, IMF_PRIV_M) then Machine
    else if Has(flags, IMF_PRIV_H) then Hypervisor
    else if Has(flags, IMF_PRIV_S) then Supervisor
    else Unprivileged
  }

  function SignalsOf(env: Env, inst: Instruction): Signals {
    var flags := FlagsOf(inst.opcode);
    Signals(
      AluOf(inst.opcode),
      AccessOf(inst.opcode),
      Has(flags, IMF_MEMREAD),
      Has(flags, IMF_MEMWRITE),
      Has(flags, IMF_ALUSRC),
      Has(flags, IMF_REGWRITE),
      Has(flags, IMF_ALU_REQ_RS),
      Has(flags, IMF_ALU_REQ_RT),
      Has(flags, IMF_BRANCH),
      Has(flags, IMF_JUMP),
      Has(flags, IMF_BJ_NOT),
      Has(flags, IMF_BRANCH_JALR),
      env.xlen != Xlen64 || Has(flags, IMF_FORCE_W_OP),
      Has(flags, IMF_ALU_MOD),
      Has(flags, IMF_PC_TO_ALU),
      Has(flags, IMF_CSR),
      Has(flags, IMF_CSR_TO_ALU),
      Has(flags, IMF_CSR) && (!Has(flags, IMF_CSR_TO_ALU) || NumRs(inst) != 0),
      Has(flags, IMF_XRET),
      XretPrivilege(flags),
      Has(flags, IMF_AMO))
  }

  /** The exception an instruction carries after decode. */
  function DecodedCause(inst: Instruction, fetched: ExceptionCause, c: Control): ExceptionCause {
    var flags := FlagsOf(inst.opcode);
    var cause := if Illegal(flags, c.checkMask) then InsnIllegal else fetched;
    if Has(flags, IMF_EXCEPTION) && cause == NoException then
      if Has(flags, IMF_EBREAK) then Break
      else if Has(flags, IMF_ECALL) then
        match c.privilege
        case Unprivileged => EcallU
        case Supervisor => EcallS
        case _ => EcallM
      else cause
    else cause
  }

  function RsValue(inst: Instruction, regs: Registers): Word {
    if Has(FlagsOf(inst.opcode), IMF_ALU_RS_ID) then Word(NumRs(inst) as bv64) else ReadGp(regs, NumRs(inst))
  }

  function CsrReadValue(env: Env, inst: Instruction, c: Control): Word {
    if Has(FlagsOf(inst.opcode), IMF_CSR) then Truncate(env.xlen, c.csrs[inst.csr]) else ZERO
  }

  function Decode(env: Env, regs: Registers, c: Control, dt: FetchInterstage): DecodeInterstage {
    DecodeInterstage(
      dt.inst, dt.instAddr, dt.nextInstAddr, dt.predictedNextInstAddr,
      RsValue(dt.inst, regs),
      ReadGp(regs, NumRt(dt.inst)),
      dt.inst.immediate,
      CsrReadValue(env, dt.inst, c),
      DecodedCause(dt.inst, dt.excause, c),
      NumRs(dt.inst), NumRt(dt.inst), NumRd(dt.inst),
      SignalsOf(env, dt.inst),
      dt.isValid)
  }

  function AluResult(env: Env, dt: DecodeInterstage): Word {
    var fst := if dt.signals.aluPc then dt.instAddr else dt.valRs;
    var snd := if dt.signals.csrToAlu then dt.csrReadVal
               else if dt.signals.alusrc then dt.immediateVal
               else dt.valRt;
    if dt.excause != NoException then ZERO
    else
      Word(TruncateBits(env.xlen,
                        Operate(dt.signals.component, dt.signals.wOperation, dt.signals.aluMod, fst.bits, snd.bits)))
  }

  function Execute(env: Env, dt: DecodeInterstage): ExecuteInterstage {
    ExecuteInterstage(
      dt.inst, dt.instAddr, dt.nextInstAddr, dt.predictedNextInstAddr,
      Plus(dt.instAddr, dt.immediateVal),
      dt.valRt,
      AluResult(env, dt),
      dt.csrReadVal,
      dt.excause,
      dt.numRd,
      dt.signals,
      dt.isValid)
  }

  function AmoOperation32(op: AmoOp, a: bv64, b: bv64): bv64 {
    match op
    case AmoSwap => b
    case AmoAdd => Add(a, b)
    case AmoXor => XorBits(a, b)
    case AmoAnd => AndBits(a, b)
    case AmoOr => OrBits(a, b)
    case AmoMin => if Signed(SignExtend32(a)) < Signed(SignExtend32(b)) then a else b
    case AmoMax => if Signed(SignExtend32(a)) < Signed(SignExtend32(b)) then b else a
    case AmoMinU => if Less(Low32(a), Low32(b)) then a else b
    case AmoMaxU => if Less(Low32(a), Low32(b)) then b else a
  }

  function AmoOperation64(op: AmoOp, a: bv64, b: bv64): bv64 {
    match op
    case AmoSwap => b
    case AmoAdd => Add(a, b)
    case AmoXor => XorBits(a, b)
    case AmoAnd => AndBits(a, b)
    case AmoOr => OrBits(a, b)
    case AmoMin => if Signed(a) < Signed(b) then a else b
    case AmoMax => if Signed(a) < Signed(b) then b else a
    case AmoMinU => if Less(a, b) then a else b
    case AmoMaxU => if Less(a, b) then b else a
  }

  /** Outcome of the data access: memory, reservation, value for write-back and whether the page faulted. */
  datatype Access = Access(memory: Memory, reserved: AddressRange, value: Word, fault: bool)

  function RangeAt(a: Word, wide: bool): AddressRange {
    var first := Unsigned(a.bits);
    AddressRange(first, (first + if wide then 7 else 3) % TWO_64)
  }

  function SpecialAccess(m: Memory, reserved: AddressRange, s: Signals, aluVal: Word, rt: Word, fault: bool): Access {
    var a := aluVal.bits;
    match s.memctl
    case LoadReserved(wide) =>
      if !s.memread then Access(m, reserved, aluVal, false)
      else if fault then Access(m, RangeAt(aluVal, wide), ZERO, true)
      else Access(m, RangeAt(aluVal, wide), Word(if wide then Read64(m, a) else SignExtend32(Read32(m, a))), false)
    case StoreConditional(wide) =>
      if !s.memwrite then Access(m, reserved, aluVal, false)
      else if !reserved.Contains(RangeAt(aluVal, wide)) then Access(m, EMPTY_RANGE, Word(1), false)
      else if fault then Access(m, reserved, ZERO, true)
      else Access(WriteBytes(m, a, if wide then 8 else 4, rt.bits), EMPTY_RANGE, ZERO, false)
    case AmoModify(op, wide) =>
      if !s.memread || !s.memwrite then Access(m, reserved, aluVal, false)
      else if fault then Access(m, reserved, ZERO, true)
      else if wide then
        Access(WriteBytes(m, a, 8, AmoOperation64(op, Read64(m, a), rt.bits)), reserved, Word(Read64(m, a)), false)
      else
        Access(WriteBytes(m, a, 4, AmoOperation32(op, Read32(m, a), rt.bits)), reserved,
               Word(SignExtend32(Read32(m, a))), false)
    case SfenceVma => Access(m, EMPTY_RANGE, aluVal, false)
    case _ => Access(m, reserved, aluVal, false)
  }

  function RegularAccess(m: Memory, reserved: AddressRange, s: Signals, aluVal: Word, rt: Word, fault: bool): Access {
    if fault && (s.memwrite || s.memread) then Access(m, reserved, ZERO, true)
    else
      var m' := if s.memwrite then WriteCtl(m, s.memctl, aluVal.bits, rt.bits) else m;
      Access(m', reserved, if s.memread then Word(ReadCtl(m', s.memctl, aluVal.bits)) else aluVal, false)
  }

  function DataAccess(env: Env, m: Memory, c: Control, dt: ExecuteInterstage): Access {
    var op := if dt.signals.memwrite || dt.signals.amo then WriteOp else ReadOp;
    var fault := env.dataFault(dt.aluVal, op, c.privilege, c.csrs);
    if dt.excause != NoException then Access(m, c.reserved, dt.aluVal, false)
    else if dt.signals.memctl.IsSpecial() then SpecialAccess(m, c.reserved, dt.signals, dt.aluVal, dt.valRt, fault)
    else if dt.signals.memctl.IsRegular() then RegularAccess(m, c.reserved, dt.signals, dt.aluVal, dt.valRt, fault)
    else Access(m, c.reserved, dt.aluVal, false)
  }

  function FaultCause(dt: ExecuteInterstage, fault: bool): ExceptionCause {
    if dt.excause != NoException then dt.excause
    else if !fault then NoException
    else if dt.signals.memwrite || dt.signals.amo then StorePageFault
    else LoadPageFault
  }

  predicate BranchTaken(dt: ExecuteInterstage) {
    dt.signals.branchBxx && (!dt.signals.branchVal != (dt.aluVal != ZERO))
  }

  function ComputedNextInstAddr(dt: ExecuteInterstage): Word {
    if BranchTaken(dt) || dt.signals.branchJal then dt.branchJalTarget
    else if dt.signals.branchJalr then dt.aluVal
    else dt.nextInstAddr
  }

  /** Whether the instruction touches CSRs or returns from a trap when it passes the memory stage. */
  predicate Commits(dt: ExecuteInterstage) {
    dt.isValid && dt.excause == NoException
  }

  function ControlAfter(env: Env, c: Control, reserved: AddressRange, dt: ExecuteInterstage): Control {
    var c0 := c.(reserved := reserved);
    if !Commits(dt) then c0
    else
      var c1 := c0.(csrs := WriteInternal(env.xlen, c.csrs, MINSTRET, Offset(c.csrs[MINSTRET], 1)));
      var c2 := if dt.signals.csrWrite then c1.(csrs := Write(env.xlen, c1.csrs, dt.inst.csr, dt.aluVal)) else c1;
      if dt.signals.xret then
        var (csrs, restored) := ExceptionReturn(env.xlen, c2.csrs, c2.privilege, dt.signals.xretPrivilege);
        SetCurrentPrivilege(c2.(csrs := csrs), restored).(reserved := EMPTY_RANGE)
      else c2
  }

  function ReturnAddress(env: Env, c: Control, dt: ExecuteInterstage): Word {
    Truncate(env.xlen, c.csrs[if dt.signals.xretPrivilege == Machine then MEPC else SEPC])
  }

  function WritebackValue(env: Env, dt: ExecuteInterstage, accessed: Word): Word {
    if dt.signals.csr then dt.csrReadVal
    else if dt.signals.branchJalr || dt.signals.branchJal then Truncate(env.xlen, dt.nextInstAddr)
    else Truncate(env.xlen, accessed)
  }

  datatype MemoryOutcome = MemoryOutcome(memory: Memory, control: Control, interstage: MemoryInterstage)

  function MemoryStage(env: Env, m: Memory, c: Control, dt: ExecuteInterstage): MemoryOutcome {
    var access := DataAccess(env, m, c, dt);
    var c' := ControlAfter(env, c, access.reserved, dt);
    MemoryOutcome(
      access.memory,
      c',
      MemoryInterstage(
        dt.inst, dt.instAddr, dt.nextInstAddr, dt.predictedNextInstAddr,
        if Commits(dt) && dt.signals.xret then ReturnAddress(env, c', dt) else ComputedNextInstAddr(dt),
        dt.aluVal,
        WritebackValue(env, dt, access.value),
        FaultCause(dt, access.fault),
        dt.numRd,
        dt.signals.regwrite && dt.excause == NoException && !access.fault,
        dt.isValid,
        Commits(dt) && (dt.signals.csrWrite || dt.signals.xret)))
  }

  function Writeback(regs: Registers, dt: MemoryInterstage): Registers {
    if dt.regwrite then WriteGp(regs, dt.numRd, dt.towriteVal) else regs
  }

  // ---------------------------------------------------------------- exceptions

  predicate BitSet(v: bv64, index: bv64) {
    AndBits(v, ShiftedLeft(1, Amount(index))) != 0
  }

  predicate DeliverToSupervisor(c: Control, cause: ExceptionCause) {
    if cause.IsInterrupt() then cause == InterruptS
    else (c.privilege == Supervisor || c.privilege == Unprivileged) && BitSet(c.csrs[MEDELEG].bits, cause.Code())
  }

  predicate RecordsAddress(cause: ExceptionCause) {
    cause in {InsnPageFault, LoadPageFault, StorePageFault, LoadMisaligned, StoreMisaligned,
              InsnFault, LoadFault, StoreFault}
  }

  /** The CSR file with the exception of `dt` recorded: address, value and cause. */
  function RecordTrap(env: Env, c: Control, dt: MemoryInterstage, toS: bool): CsrFile {
    var f1 := WriteInternal(env.xlen, c.csrs, if toS then SEPC else MEPC, dt.instAddr);
    var value := if RecordsAddress(dt.excause) then dt.memAddr else ZERO;
    var f2 := WriteInternal(env.xlen, f1, if toS then STVAL else MTVAL, value);
    UpdateExceptionCause(env.xlen, f2, dt.excause, if toS then Supervisor else c.privilege)
  }

  /** Control state and next PC once the handler at `target` is entered. */
  function EnterHandler(env: Env, c: Control, target: Privilege): (Control, Word) {
    var f := ExceptionInitiate(env.xlen, c.csrs, c.privilege, target);
    (SetCurrentPrivilege(c.(csrs := f), target), ExceptionPc(f, target))
  }

  /** Control state and next PC after the exception of `dt` is delivered. */
  function HandleException(env: Env, c: Control, dt: MemoryInterstage): (Control, Word) {
    if dt.excause == InsnIllegal then (c, dt.computedNextInstAddr)
    else
      var pc := if dt.excause == HwBreak then dt.instAddr else dt.computedNextInstAddr;
      if dt.excause == HwBreak && env.stopOn(HwBreak) then (c, pc)
      else
        var toS := DeliverToSupervisor(c, dt.excause);
        var c1 := c.(csrs := RecordTrap(env, c, dt, toS), reserved := EMPTY_RANGE);
        if c1.csrs[if toS then STVEC else MTVEC] != ZERO && !env.stepOver(dt.excause)
        then EnterHandler(env, c1, if toS then Supervisor else Machine)
        else (c1, pc)
  }

  // ---------------------------------------------------------------- single-cycle core

  datatype ArchState = ArchState(pc: Word, regs: Registers, memory: Memory, control: Control)

  /** Everything one instruction does, from the interstage value the execute stage hands over. */
  function Retire(env: Env, s: ArchState, dt: ExecuteInterstage): ArchState {
    var out := MemoryStage(env, s.memory, s.control, dt);
    var regs := Writeback(s.regs, out.interstage);
    var (c, pc) := if out.interstage.excause != NoException then HandleException(env, out.control, out.interstage)
                   else (out.control, out.interstage.computedNextInstAddr);
    ArchState(pc, regs, out.memory, c)
  }

  function SingleExecute(env: Env, s: ArchState, predicted: Word): ExecuteInterstage {
    Execute(env, Decode(env, s.regs, s.control, FetchAt(env, s.control, s.pc, predicted)))
  }

  function SingleStep(env: Env, s: ArchState, predicted: Word): ArchState {
    Retire(env, s, SingleExecute(env, s, predicted))
  }

  function PredictAt(env: Env, s: ArchState, cycle: nat): Word {
    env.predict(cycle, env.program(s.pc, s.control.privilege, s.control.csrs[SATP]).inst, s.pc)
  }

  function SingleRun(env: Env, s: ArchState, cycle: nat, steps: nat): ArchState
    decreases steps
  {
    if steps == 0 then s else SingleRun(env, SingleStep(env, s, PredictAt(env, s, cycle + 1)), cycle + 1, steps - 1)
  }

  // ---------------------------------------------------------------- pipelined core

  datatype PipeState = PipeState(
    pc: Word,
    regs: Registers,
    memory: Memory,
    control: Control,
    stopIf: bool,
    ifId: FetchInterstage,
    idEx: DecodeInterstage,
    exMem: ExecuteInterstage,
    memWb: MemoryInterstage,
    stallCount: nat,
    cycleCount: nat)

  function PipeReset(s: ArchState): PipeState {
    PipeState(s.pc, s.regs, s.memory, s.control, false, FLUSHED_FETCH, FLUSHED_DECODE, FLUSHED_EXECUTE, FLUSHED_MEMORY,
              0, 0)
  }

  predicate HazardWith(regwrite: bool, numRd: RegisterId, idEx: DecodeInterstage) {
    regwrite && numRd != 0
    && ((idEx.signals.aluReqRs && numRd == idEx.numRs) || (idEx.signals.aluReqRt && numRd == idEx.numRt))
  }

  /** ID/EX with the result `val` of an older instruction forwarded to the operands that wait for it. */
  function Forwarded(idEx: DecodeInterstage, numRd: RegisterId, val: Word): DecodeInterstage {
    idEx.(valRs := if idEx.signals.aluReqRs && numRd == idEx.numRs then val else idEx.valRs,
          valRt := if idEx.signals.aluReqRt && numRd == idEx.numRt then val else idEx.valRt)
  }

  /** Forwarding first from MEM/WB, then from EX/MEM, and the stalls that remain. */
  function DataHazards(hu: HazardUnit, memWb: MemoryInterstage, exMem: ExecuteInterstage, idEx: DecodeInterstage)
    : (bool, DecodeInterstage)
  {
    var hazardW := HazardWith(memWb.regwrite, memWb.numRd, idEx);
    var hazardM := HazardWith(exMem.signals.regwrite, exMem.numRd, idEx);
    match hu
    case HuNone => (false, idEx)
    case HuStall => (hazardW || hazardM, idEx)
    case HuStallForward =>
      var afterW := if hazardW then Forwarded(idEx, memWb.numRd, memWb.towriteVal) else idEx;
      if !hazardM then (false, afterW)
      else if exMem.signals.memread then (true, afterW)
      else (false, Forwarded(afterW, exMem.numRd, exMem.aluVal))
  }

  predicate Mispredicted(memWb: MemoryInterstage) {
    memWb.computedNextInstAddr != memWb.predictedNextInstAddr
  }

  predicate StallRequested(idEx: DecodeInterstage, exMem: ExecuteInterstage) {
    idEx.signals.csr && exMem.isValid
  }

  /** The state after all five stages worked and exceptions flushed what is younger than they are. */
  function Advance(env: Env, p: PipeState): PipeState {
    var cycle := p.cycleCount + 1;
    var regs := Writeback(p.regs, p.memWb);
    var out := MemoryStage(env, p.memory, p.control, p.exMem);
    var exMem := if out.interstage.excause != NoException then FLUSHED_EXECUTE else Execute(env, p.idEx);
    var idEx := if out.interstage.excause != NoException || exMem.excause != NoException then FLUSHED_DECODE
                else Decode(env, regs, out.control, p.ifId);
    var ifId := if out.interstage.excause != NoException || exMem.excause != NoException || idEx.excause != NoException
                then FLUSHED_FETCH
                else Fetch(env, out.control, p.pc, cycle, p.stopIf);
    PipeState(p.pc, regs, out.memory, out.control, false, ifId, idEx, exMem, out.interstage, p.stallCount, cycle)
  }

  function FlushAndContinue(q: PipeState, pc: Word): PipeState {
    q.(pc := pc, ifId := FLUSHED_FETCH, idEx := FLUSHED_DECODE, exMem := FLUSHED_EXECUTE)
  }

  function HandleStall(q: PipeState, saved: FetchInterstage): PipeState {
    q.(ifId := saved, idEx := FLUSHED_DECODE, stallCount := q.stallCount + 1)
  }

  /** Hazards, exceptions, mispredictions, stalls and the next PC. */
  function Resolve(env: Env, q0: PipeState, saved: FetchInterstage): PipeState {
    var (stall, idEx) := DataHazards(env.hazardUnit, q0.memWb, q0.exMem, q0.idEx);
    var q := q0.(idEx := idEx);
    if q.memWb.excause != NoException then
      var (c, pc) := HandleException(env, q.control, q.memWb);
      q.(control := c, pc := pc)
    else if Mispredicted(q.memWb) || q.memWb.csrWritten then FlushAndContinue(q, q.memWb.computedNextInstAddr)
    else if q.exMem.excause != NoException || q.idEx.excause != NoException then q.(stopIf := true)
    else if stall || StallRequested(q.idEx, q.exMem) then HandleStall(q, saved)
    else q.(pc := q.ifId.predictedNextInstAddr)
  }

  function PipeStep(env: Env, p: PipeState): PipeState {
    Resolve(env, Advance(env, p), p.ifId)
  }

  function PipeRun(env: Env, p: PipeState, cycles: nat): PipeState {
    if cycles == 0 then p else PipeStep(env, PipeRun(env, p, cycles - 1))
  }

  /** How many instructions pass the memory stage in a run, excepting ones included. */
  function Passed(env: Env, p: PipeState, cycles: nat): nat {
    if cycles == 0 then 0
    else Passed(env, p, cycles - 1) + if PipeRun(env, p, cycles - 1).exMem.isValid then 1 else 0
  }
}
