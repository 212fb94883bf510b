/**
 * What each instruction that does not access memory does to the machine, against references on integers that
 * mention neither flags nor ALU operations nor stages.
 */
module InstructionMeaning {
  import opened Words
  import opened Numbers
  import opened SignedNumbers
  import opened Alu
  import opened AluMeaning
  import opened MachineDefs
  import opened CsrFunctions
  import opened InstructionSet
  import opened Stages
  import opened Refinement
  import opened ForwardingLimits

  // ---------------------------------------------------------------- legality

  predicate IsAtomic(op: Opcode) {
    op.Lr? || op.Sc? || op.Amo?
  }

  /** The rows of the tables that only RV64 has; the doubleword amoadd and amoswap are not marked so. */
  predicate NeedsRv64(op: Opcode) {
    || ((op.Op? || op.OpImm? || op.OpMul?) && op.word)
    || op == Load(LD) || op == Load(LWU) || op == Store(SD)
    || (op.Amo? && op.wide && op.amo != AmoAdd && op.amo != AmoSwap)
  }

  /** Whether the configuration and the level admit an instruction. */
  predicate Allowed(env: Env, level: Privilege, op: Opcode) {
    && op != Unknown
    && (NeedsRv64(op) ==> env.xlen == Xlen64) && (IsAtomic(op) ==> env.isaA) && (op.OpMul? ==> env.isaM)
    && (op == Mret ==> level == Machine) && (op == Sret || op == Sfence ==> level != Unprivileged)
  }

  lemma PlainIllegal(env: Env, c: Control, op: Opcode)
    requires MaskOk(env, c) && !(op.OpImm? || op.Op? || op.OpMul? || op.Csr? || op.Amo? || op.Load? || op.Store?)
    ensures Illegal(FlagsOf(op), c.checkMask) <==> !Allowed(env, c.privilege, op)
  {
  }

  lemma OperationIllegal(env: Env, c: Control, op: Opcode)
    requires MaskOk(env, c) && (op.OpImm? || op.Op? || op.OpMul?)
    ensures Illegal(FlagsOf(op), c.checkMask) <==> !Allowed(env, c.privilege, op)
  {
  }

  lemma AccessIllegal(env: Env, c: Control, op: Opcode)
    requires MaskOk(env, c) && (op.Csr? || op.Amo? || op.Load? || op.Store?)
    ensures Illegal(FlagsOf(op), c.checkMask) <==> !Allowed(env, c.privilege, op)
  {
  }

  /** An instruction is illegal exactly when configuration or level do not admit it. */
  lemma IllegalIff(env: Env, c: Control, op: Opcode)
    requires MaskOk(env, c)
    ensures Illegal(FlagsOf(op), c.checkMask) <==> !Allowed(env, c.privilege, op)
  {
    hide Illegal, FlagsOf, Allowed, MaskOk;
    if op.OpImm? || op.Op? || op.OpMul? {
      OperationIllegal(env, c, op);
    } else if op.Csr? || op.Amo? || op.Load? || op.Store? {
      AccessIllegal(env, c, op);
    } else {
      PlainIllegal(env, c, op);
    }
  }

  lemma OperationFlags(op: Opcode)
    requires op.OpImm? || op.Op? || op.OpMul? || op.Csr? || op.Amo?
    ensures !Has(FlagsOf(op), IMF_EXCEPTION)
  {
  }

  lemma PlainFlags(op: Opcode)
    requires !(op.OpImm? || op.Op? || op.OpMul? || op.Csr? || op.Amo?)
    ensures Has(FlagsOf(op), IMF_EXCEPTION) <==> op == Ecall || op == Ebreak
  {
  }

  lemma CallFlags(op: Opcode)
    ensures Has(FlagsOf(op), IMF_EXCEPTION) <==> op == Ecall || op == Ebreak
    ensures Has(FlagsOf(Ebreak), IMF_EBREAK) && Has(FlagsOf(Ecall), IMF_ECALL) && !Has(FlagsOf(Ecall), IMF_EBREAK)
  {
    assert Has(FlagsOf(Ebreak), IMF_EBREAK) && Has(FlagsOf(Ecall), IMF_ECALL) && !Has(FlagsOf(Ecall), IMF_EBREAK);
    hide FlagsOf, Has;
    if op.OpImm? || op.Op? || op.OpMul? || op.Csr? || op.Amo? {
      OperationFlags(op);
    } else {
      PlainFlags(op);
    }
  }

  /** The cause an instruction is decoded with: illegality, the cause of its fetch, or that of its own call or break. */
  lemma CauseMeaning(env: Env, c: Control, inst: Instruction, fetched: ExceptionCause)
    requires MaskOk(env, c)
    ensures DecodedCause(inst, fetched, c)
            == if !Allowed(env, c.privilege, inst.opcode) then InsnIllegal
               else if fetched != NoException then fetched
               else if inst.opcode == Ebreak then Break
               else if inst.opcode == Ecall then
                 if c.privilege == Unprivileged then EcallU else if c.privilege == Supervisor then EcallS else EcallM
               else NoException
  {
    hide Illegal, FlagsOf, Allowed, MaskOk, Has;
    IllegalIff(env, c, inst.opcode);
    CallFlags(inst.opcode);
  }

  // ---------------------------------------------------------------- steps

  /** The instruction at the program counter is `inst`, it is admitted, and it is neither a call nor a break. */
  predicate Runs(env: Env, s: ArchState, inst: Instruction) {
    && MaskOk(env, s.control) && FetchedAt(env, s.control, s.pc) == Fetched(inst, NoException)
    && Allowed(env, s.control.privilege, inst.opcode) && inst.opcode != Ecall && inst.opcode != Ebreak
  }

  /** The control state with one more instruction counted. */
  function Counted(env: Env, c: Control): Control {
    c.(csrs := WriteInternal(env.xlen, c.csrs, MINSTRET, Offset(c.csrs[MINSTRET], 1)))
  }

  lemma FullWrite(reg: bv64, val: bv64)
    ensures Masked(WriteMask(MINSTRET), reg, val) == val
  {
  }

  lemma CountWraps(xlen: Xlen, x: int, y: int)
    requires x % TWO_64 == y % TWO_64
    ensures x % Pow2(XlenBits(xlen)) == y % Pow2(XlenBits(xlen))
  {
    hide Pow2;
    Pow2Bytes();
    Modulo32(x);
    Modulo32(y);
  }

  /** The counter goes up by one modulo 2^XLEN; no other register changes. */
  lemma CountedMeaning(env: Env, c: Control)
    ensures
      var c' := Counted(env, c);
      && Unsigned(c'.csrs[MINSTRET].bits) == (Unsigned(c.csrs[MINSTRET].bits) + 1) % Pow2(XlenBits(env.xlen))
      && (forall j: CsrId :: j != MINSTRET ==> c'.csrs[j] == c.csrs[j]) && c' == c.(csrs := c'.csrs)
  {
    hide Unsigned, Add, Masked, WriteMask, TruncateBits, Pow2, Signed;
    var n := c.csrs[MINSTRET].bits;
    FullWrite(n, Add(n, 1));
    CutIs(env.xlen, Add(n, 1));
    SignedModulo(Add(n, 1));
    SumIs(n, 1);
    SmallNumbers();
    Pow2Bytes();
    CountWraps(env.xlen, Signed(Add(n, 1)), Unsigned(n) + 1);
  }

  /** What the execute stage hands over for the instruction. */
  lemma RunsExecute(env: Env, s: ArchState, inst: Instruction)
    requires Runs(env, s, inst)
    ensures
      var e := SingleExecute(env, s, ZERO);
      && e.excause == NoException && e.isValid && e.inst == inst && e.signals == SignalsOf(env, inst)
      && e.instAddr == s.pc && e.nextInstAddr == Offset(s.pc, 4) && e.numRd == NumRd(inst)
      && e.branchJalTarget == Plus(s.pc, inst.immediate) && e.valRt == ReadGp(s.regs, NumRt(inst))
      && e.csrReadVal == CsrReadValue(env, inst, s.control)
    ensures
      var e, g := SingleExecute(env, s, ZERO), SignalsOf(env, inst);
      var fst := if g.aluPc then s.pc else RsValue(inst, s.regs);
      var snd := if g.csrToAlu then CsrReadValue(env, inst, s.control)
                 else if g.alusrc then inst.immediate
                 else ReadGp(s.regs, NumRt(inst));
      e.aluVal.bits == TruncateBits(env.xlen, Operate(g.component, g.wOperation, g.aluMod, fst.bits, snd.bits))
  {
    hide SignalsOf, DecodedCause, MaskOk, Allowed, FetchedAt, Operate, TruncateBits, RsValue, ReadGp, CsrReadValue,
      NumRs, NumRt, NumRd, Plus, Offset;
    CauseMeaning(env, s.control, inst, NoException);
  }

  /** A step that neither accesses memory nor returns from a trap. */
  lemma PlainStep(env: Env, s: ArchState, inst: Instruction, predicted: Word)
    requires Runs(env, s, inst) && SignalsOf(env, inst).memctl == AccessNone && !SignalsOf(env, inst).xret
    ensures
      var e, s' := SingleExecute(env, s, ZERO), SingleStep(env, s, predicted);
      && s'.memory == s.memory && s'.pc == ComputedNextInstAddr(e)
      && s'.regs == (if e.signals.regwrite then WriteGp(s.regs, e.numRd, WritebackValue(env, e, e.aluVal)) else s.regs)
      && (!e.signals.csrWrite ==> s'.control == Counted(env, s.control))
      && (e.signals.csrWrite ==>
            var c := Counted(env, s.control);
            s'.control == c.(csrs := Write(env.xlen, c.csrs, inst.csr, e.aluVal)))
  {
    hide SingleExecute, SignalsOf, Runs, ComputedNextInstAddr, WritebackValue, WriteInternal, Write, WriteGp;
    PredictionIrrelevant(env, s, predicted, ZERO);
    RunsExecute(env, s, inst);
    NoAccess(env, s.memory, s.control, SingleExecute(env, s, ZERO));
  }

  // ---------------------------------------------------------------- arithmetic

  predicate IsOperation(op: Opcode) {
    op.Op? || op.OpImm? || op.OpMul?
  }

  lemma OperationSignals(env: Env, inst: Instruction)
    requires IsOperation(inst.opcode)
    ensures
      var g, op := SignalsOf(env, inst), inst.opcode;
      && g.component == (if op.OpMul? then Multiplier(op.mul) else BasicAlu(op.alu))
      && g.wOperation == (env.xlen != Xlen64 || op.word) && g.aluMod == (!op.OpMul? && op.modified)
      && !g.aluPc && !g.csrToAlu && g.alusrc == op.OpImm? && g.regwrite && !g.csr && !g.csrWrite && !g.xret
      && !g.branchBxx && !g.branchJal && !g.branchJalr && g.memctl == AccessNone
    ensures NumRd(inst) == inst.rd && NumRs(inst) == inst.rs && (!inst.opcode.OpImm? ==> NumRt(inst) == inst.rt)
    ensures !Has(FlagsOf(inst.opcode), IMF_ALU_RS_ID)
  {
  }

  /** A register as a word of the machine, from an integer. */
  predicate Holds(xlen: Xlen, v: Word, x: int) {
    Unsigned(v.bits) == x % Pow2(XlenBits(xlen))
  }

  /** An address, from an integer. */
  predicate Reaches(pc: Word, x: int) {
    Unsigned(pc.bits) == x % TWO_64
  }

  lemma ReachesSum(a: Word, b: Word)
    ensures Reaches(Plus(a, b), Unsigned(a.bits) + Unsigned(b.bits))
  {
    hide Unsigned, Add;
    SumIs(a.bits, b.bits);
  }

  lemma Four()
    ensures Unsigned(4) == 4
  {
  }

  lemma ReachesNext(pc: Word)
    ensures Reaches(Offset(pc, 4), Unsigned(pc.bits) + 4)
  {
    hide Unsigned, Add;
    Four();
    SumIs(pc.bits, 4);
  }

  /** Only a register and the program counter change, and one more instruction is counted. */
  ghost predicate Assigns(env: Env, s: ArchState, s': ArchState, rd: RegisterId, v: Word, next: int) {
    && s'.regs == WriteGp(s.regs, rd, v) && Reaches(s'.pc, next) && s'.memory == s.memory
    && s'.control == Counted(env, s.control)
  }

  /** The second operand of an arithmetic instruction. */
  function Operand(s: ArchState, inst: Instruction): Word {
    if inst.opcode.OpImm? then inst.immediate else ReadGp(s.regs, inst.rt)
  }

  /** The integer an arithmetic instruction may leave in its destination. */
  ghost predicate Computes(op: Opcode, w: nat, a: nat, b: nat, x: int)
    requires IsOperation(op) && w > 0
  {
    if op.OpMul? then Multiplies(op.mul, w, a, b, x)
    else x == SignedOf(w, Exact(op.alu, op.modified, w, a, b))
  }

  lemma OperationExecutes(env: Env, s: ArchState, inst: Instruction)
    requires Runs(env, s, inst) && IsOperation(inst.opcode)
    ensures
      var g, op := SignalsOf(env, inst), inst.opcode;
      SingleExecute(env, s, ZERO).aluVal.bits
      == TruncateBits(env.xlen, Operate(if op.OpMul? then Multiplier(op.mul) else BasicAlu(op.alu),
                                        env.xlen != Xlen64 || op.word, !op.OpMul? && op.modified,
                                        ReadGp(s.regs, inst.rs).bits, Operand(s, inst).bits))
  {
    hide SingleExecute, SignalsOf, Runs, Operate, TruncateBits, ReadGp, NumRs, NumRt, NumRd, FlagsOf, Has, CsrReadValue;
    RunsExecute(env, s, inst);
    OperationSignals(env, inst);
  }

  lemma OperationSteps(env: Env, s: ArchState, inst: Instruction, predicted: Word)
    requires Runs(env, s, inst) && IsOperation(inst.opcode)
    ensures
      var v := SingleExecute(env, s, ZERO).aluVal;
      Assigns(env, s, SingleStep(env, s, predicted), inst.rd, v, Unsigned(s.pc.bits) + 4)
  {
    hide SingleExecute, SignalsOf, Runs, SingleStep, Counted, WriteGp, NumRs, NumRt, NumRd, FlagsOf, Has, Offset,
      Truncate, Reaches;
    OperationSignals(env, inst);
    PlainStep(env, s, inst, predicted);
    RunsExecute(env, s, inst);
    ResultCut(env, s);
    ReachesNext(s.pc);
  }

  lemma ResultCut(env: Env, s: ArchState)
    ensures
      var v := SingleExecute(env, s, ZERO).aluVal;
      Truncate(env.xlen, v) == v
  {
    hide AluResult, Decode, Truncate;
    AluTruncates(env, Decode(env, s.regs, s.control, FetchAt(env, s.control, s.pc, ZERO)));
  }

  /**
   * Addition, subtraction, shifts, comparisons, bitwise operations, multiplication, division and remainder, with
   * register or immediate operand, at full width and on words: the destination holds the integer result.
   */
  lemma OperationMeaning(env: Env, s: ArchState, inst: Instruction, predicted: Word) returns (v: Word, x: int)
    requires Runs(env, s, inst) && IsOperation(inst.opcode)
    ensures Assigns(env, s, SingleStep(env, s, predicted), inst.rd, v, Unsigned(s.pc.bits) + 4) && Holds(env.xlen, v, x)
    ensures
      var w := Width(env.xlen != Xlen64 || inst.opcode.word);
      Computes(inst.opcode, w, LowNumber(w, ReadGp(s.regs, inst.rs).bits), LowNumber(w, Operand(s, inst).bits), x)
  {
    hide SingleExecute, Runs, SingleStep, Assigns, Operate, TruncateBits, ReadGp, Signed, Unsigned, LowNumber,
      Multiplies, Exact, SignedOf, Operand, Pow2;
    var op := inst.opcode;
    var word := env.xlen != Xlen64 || op.word;
    var modified := !op.OpMul? && op.modified;
    var a, b := ReadGp(s.regs, inst.rs).bits, Operand(s, inst).bits;
    var r := Operate(if op.OpMul? then Multiplier(op.mul) else BasicAlu(op.alu), word, modified, a, b);
    v := SingleExecute(env, s, ZERO).aluVal;
    x := Signed(r);
    OperationSteps(env, s, inst, predicted);
    OperationExecutes(env, s, inst);
    CutIs(env.xlen, r);
    if op.OpMul? {
      MultiplierIs(op.mul, word, modified, a, b);
    } else {
      BasicIs(op.alu, word, modified, a, b);
    }
  }

  // ---------------------------------------------------------------- upper immediates and jumps

  lemma SignedOfModulo(w: nat, x: int)
    ensures SignedOf(w, x) % Pow2(w) == x % Pow2(w)
  {
    var p, n := Pow2(w), x % Pow2(w);
    QuotientIs(n, p, 0, n);
    QuotientIs(n - p, p, -1, n);
  }

  lemma WrappedSums(w: nat, a: nat, b: nat)
    ensures SignedOf(w, a % Pow2(w) + b % Pow2(w)) % Pow2(w) == (a + b) % Pow2(w)
  {
    hide Pow2, SignedOf;
    SignedOfModulo(w, a % Pow2(w) + b % Pow2(w));
    SumModulo(a, b, Pow2(w));
  }

  /** The adder of the machine's width. */
  lemma AdderHolds(xlen: Xlen, a: bv64, b: bv64)
    ensures Holds(xlen, Word(TruncateBits(xlen, Operate(BasicAlu(ADD), xlen != Xlen64, false, a, b))),
                  Unsigned(a) + Unsigned(b))
  {
    hide Operate, TruncateBits, Unsigned, Signed, SignedOf, Pow2;
    BasicIs(ADD, xlen != Xlen64, false, a, b);
    CutIs(xlen, Operate(BasicAlu(ADD), xlen != Xlen64, false, a, b));
    WrappedSums(XlenBits(xlen), Unsigned(a), Unsigned(b));
  }

  predicate IsUpper(op: Opcode) {
    op == Lui || op == Auipc
  }

  lemma UpperSignals(env: Env, inst: Instruction)
    requires IsUpper(inst.opcode)
    ensures
      var g := SignalsOf(env, inst);
      && g.component == BasicAlu(ADD) && g.wOperation == (env.xlen != Xlen64) && !g.aluMod
      && g.aluPc == (inst.opcode == Auipc) && !g.csrToAlu && g.alusrc && g.regwrite && !g.csr && !g.csrWrite && !g.xret
      && !g.branchBxx && !g.branchJal && !g.branchJalr && g.memctl == AccessNone
    ensures NumRd(inst) == inst.rd && NumRs(inst) == 0 && !Has(FlagsOf(inst.opcode), IMF_ALU_RS_ID)
  {
  }

  /** lui puts the immediate into the destination, auipc its sum with the address of the instruction. */
  lemma UpperMeaning(env: Env, s: ArchState, inst: Instruction, predicted: Word) returns (v: Word)
    requires Runs(env, s, inst) && IsUpper(inst.opcode)
    ensures Assigns(env, s, SingleStep(env, s, predicted), inst.rd, v, Unsigned(s.pc.bits) + 4)
    ensures Holds(env.xlen, v, Unsigned(inst.immediate.bits) + if inst.opcode == Auipc then Unsigned(s.pc.bits) else 0)
  {
    hide SingleExecute, SignalsOf, Runs, SingleStep, Counted, WriteGp, NumRs, NumRt, NumRd, FlagsOf, Has, Offset,
      Truncate, Reaches, Operate, TruncateBits, CsrReadValue, Unsigned, Holds;
    UpperSignals(env, inst);
    PlainStep(env, s, inst, predicted);
    RunsExecute(env, s, inst);
    ResultCut(env, s);
    ReachesNext(s.pc);
    SmallNumbers();
    v := SingleExecute(env, s, ZERO).aluVal;
    AdderHolds(env.xlen, (if inst.opcode == Auipc then s.pc else ZERO).bits, inst.immediate.bits);
  }

  lemma LinkSignals(env: Env, inst: Instruction)
    requires IsJump(inst)
    ensures
      var g := SignalsOf(env, inst);
      && g.component == BasicAlu(ADD) && g.wOperation == (env.xlen != Xlen64) && !g.aluMod
      && g.aluPc == (inst.opcode == Jal) && !g.csrToAlu && g.alusrc && g.regwrite && !g.csr && !g.csrWrite && !g.xret
      && !g.branchBxx && g.branchJal == (inst.opcode == Jal) && g.branchJalr == (inst.opcode == Jalr)
      && g.memctl == AccessNone
    ensures NumRd(inst) == inst.rd && (inst.opcode == Jalr ==> NumRs(inst) == inst.rs)
    ensures !Has(FlagsOf(inst.opcode), IMF_ALU_RS_ID)
  {
  }

  lemma LinkHolds(xlen: Xlen, pc: Word)
    ensures Holds(xlen, Truncate(xlen, Offset(pc, 4)), Unsigned(pc.bits) + 4)
  {
    hide Unsigned, Offset, Low32, Pow2;
    ReachesNext(pc);
    LowIs(Offset(pc, 4).bits);
    Pow2Bytes();
    Modulo32(Unsigned(pc.bits) + 4);
  }

  lemma JumpSteps(env: Env, s: ArchState, inst: Instruction, predicted: Word)
    requires Runs(env, s, inst) && IsJump(inst)
    ensures
      var s' := SingleStep(env, s, predicted);
      && s'.regs == WriteGp(s.regs, inst.rd, Truncate(env.xlen, Offset(s.pc, 4))) && s'.memory == s.memory
      && s'.control == Counted(env, s.control)
      && s'.pc
         == if inst.opcode == Jal then Plus(s.pc, inst.immediate)
            else Word(TruncateBits(env.xlen, Operate(BasicAlu(ADD), env.xlen != Xlen64, false,
                                                     ReadGp(s.regs, inst.rs).bits, inst.immediate.bits)))
  {
    hide SingleExecute, SignalsOf, Runs, SingleStep, Counted, WriteGp, NumRs, NumRt, NumRd, FlagsOf, Has, Offset, Plus,
      Truncate, Operate, TruncateBits, CsrReadValue, ReadGp;
    LinkSignals(env, inst);
    PlainStep(env, s, inst, predicted);
    RunsExecute(env, s, inst);
  }

  /** A jump leaves the address behind it in its destination; jal goes a distance, jalr a distance from a register. */
  lemma JumpMeaning(env: Env, s: ArchState, inst: Instruction, predicted: Word) returns (link: Word)
    requires Runs(env, s, inst) && IsJump(inst)
    ensures Holds(env.xlen, link, Unsigned(s.pc.bits) + 4)
    ensures inst.opcode == Jal ==>
              Assigns(env, s, SingleStep(env, s, predicted), inst.rd, link,
                      Unsigned(s.pc.bits) + Unsigned(inst.immediate.bits))
    ensures inst.opcode == Jalr ==>
              Assigns(env, s, SingleStep(env, s, predicted), inst.rd, link,
                      (Unsigned(ReadGp(s.regs, inst.rs).bits) + Unsigned(inst.immediate.bits))
                      % Pow2(XlenBits(env.xlen)))
  {
    hide Runs, SingleStep, Counted, WriteGp, Offset, Plus, Truncate, Operate, TruncateBits, Unsigned, ReadGp, Pow2,
      Holds, Reaches;
    JumpSteps(env, s, inst, predicted);
    link := Truncate(env.xlen, Offset(s.pc, 4));
    LinkHolds(env.xlen, s.pc);
    ReachesSum(s.pc, inst.immediate);
    AdderHolds(env.xlen, ReadGp(s.regs, inst.rs).bits, inst.immediate.bits);
    if inst.opcode == Jalr {
      HoldsReaches(env.xlen, SingleStep(env, s, predicted).pc,
                   Unsigned(ReadGp(s.regs, inst.rs).bits) + Unsigned(inst.immediate.bits));
    }
  }

  lemma HoldsReaches(xlen: Xlen, v: Word, x: int)
    requires Holds(xlen, v, x)
    ensures Reaches(v, x % Pow2(XlenBits(xlen)))
  {
    hide Unsigned, Pow2;
    Bounded(v.bits);
    Pow2Bytes();
  }

  // ---------------------------------------------------------------- branches

  /** The comparison each branch names, of unsigned numbers of `w` bits. */
  predicate Compares(kind: BranchKind, w: nat, a: nat, b: nat) {
    match kind
    case BEQ => a == b
    case BNE => a != b
    case BLT => SignedOf(w, a) < SignedOf(w, b)
    case BGE => SignedOf(w, a) >= SignedOf(w, b)
    case BLTU => a < b
    case BGEU => a >= b
  }

  /** The rows of the branch table. */
  lemma BranchSignals(env: Env, inst: Instruction)
    requires inst.opcode.Branch?
    ensures
      var g, kind := SignalsOf(env, inst), inst.opcode.branch;
      && g.branchBxx && !g.branchJal && !g.branchJalr && !g.aluPc && !g.alusrc && !g.csrToAlu
      && g.wOperation == (env.xlen != Xlen64) && !g.regwrite && !g.csrWrite && !g.xret && g.memctl == AccessNone
      && g.branchVal == (kind == BNE || kind == BLT || kind == BLTU)
      && g.component
         == BasicAlu(if kind == BEQ || kind == BNE then ADD else if kind == BLT || kind == BGE then SLT else SLTU)
      && g.aluMod == (kind == BEQ || kind == BNE)
    ensures NumRs(inst) == inst.rs && NumRt(inst) == inst.rt && !Has(FlagsOf(inst.opcode), IMF_ALU_RS_ID)
  {
  }

  /** When a result of the machine's width is zero. */
  lemma ZeroResult(xlen: Xlen, op: AluOp, modified: bool, a: bv64, b: bv64)
    ensures
      var w := XlenBits(xlen);
      Word(TruncateBits(xlen, Operate(BasicAlu(op), xlen != Xlen64, modified, a, b))) == ZERO
      <==> Exact(op, modified, w, LowNumber(w, a), LowNumber(w, b)) % Pow2(w) == 0
  {
    hide Operate, TruncateBits, Unsigned, Signed, Exact, LowNumber, Pow2;
    var r := Operate(BasicAlu(op), xlen != Xlen64, modified, a, b);
    BasicIs(op, xlen != Xlen64, modified, a, b);
    CutIs(xlen, r);
    var w := XlenBits(xlen);
    SignedOfModulo(w, Exact(op, modified, w, LowNumber(w, a), LowNumber(w, b)));
    ZeroNumber(TruncateBits(xlen, r));
  }

  lemma ZeroNumber(v: bv64)
    ensures v == 0 <==> Unsigned(v) == 0
  {
    hide Unsigned;
    SmallNumbers();
    if Unsigned(v) == 0 {
      SameNumber(v, 0);
    }
  }

  lemma LowNumberBound(w: nat, v: bv64)
    ensures 0 <= LowNumber(w, v) < Pow2(w)
  {
  }

  lemma DifferenceVanishes(p: nat, a: nat, b: nat)
    requires a < p && b < p
    ensures (a - b) % p == 0 <==> a == b
  {
    if a >= b {
      QuotientIs(a - b, p, 0, a - b);
    } else {
      QuotientIs(a - b, p, -1, a - b + p);
    }
  }

  lemma DigitVanishes(p: nat, c: bool)
    requires p > 1
    ensures Digit(c) % p == 0 <==> !c
  {
    QuotientIs(Digit(c), p, 0, Digit(c));
  }

  /** Whether the ALU's result for a branch is zero. */
  lemma BranchAlu(xlen: Xlen, kind: BranchKind, rs: bv64, rt: bv64)
    ensures
      var w := XlenBits(xlen);
      var op := if kind == BEQ || kind == BNE then ADD else if kind == BLT || kind == BGE then SLT else SLTU;
      var modified := kind == BEQ || kind == BNE;
      Word(TruncateBits(xlen, Operate(BasicAlu(op), xlen != Xlen64, modified, rs, rt))) == ZERO
      <==> Compares(kind, w, LowNumber(w, rs), LowNumber(w, rt)) == (kind == BEQ || kind == BGE || kind == BGEU)
  {
    hide Operate, TruncateBits, Unsigned, LowNumber, Pow2, SignedOf;
    var w := XlenBits(xlen);
    var a, b := LowNumber(w, rs), LowNumber(w, rt);
    LowNumberBound(w, rs);
    LowNumberBound(w, rt);
    Pow2Bytes();
    ZeroResult(xlen, ADD, true, rs, rt);
    ZeroResult(xlen, SLT, false, rs, rt);
    ZeroResult(xlen, SLTU, false, rs, rt);
    DifferenceVanishes(Pow2(w), a, b);
    DigitVanishes(Pow2(w), SignedOf(w, a) < SignedOf(w, b));
    DigitVanishes(Pow2(w), a < b);
  }

  /** A branch changes nothing but the program counter, which goes to the target exactly when the registers compare. */
  lemma BranchMeaning(env: Env, s: ArchState, inst: Instruction, predicted: Word)
    requires Runs(env, s, inst) && inst.opcode.Branch?
    ensures
      var w, s' := XlenBits(env.xlen), SingleStep(env, s, predicted);
      var a, b := LowNumber(w, ReadGp(s.regs, inst.rs).bits), LowNumber(w, ReadGp(s.regs, inst.rt).bits);
      && s'.regs == s.regs && s'.memory == s.memory && s'.control == Counted(env, s.control)
      && Reaches(s'.pc, Unsigned(s.pc.bits)
                        + if Compares(inst.opcode.branch, w, a, b) then Unsigned(inst.immediate.bits) else 4)
  {
    hide SingleExecute, SignalsOf, Runs, SingleStep, Counted, WriteGp, NumRs, NumRt, NumRd, FlagsOf, Has, Offset, Plus,
      Operate, TruncateBits, CsrReadValue, Unsigned, ReadGp, Pow2, Reaches, SignedOf, LowNumber;
    var w := XlenBits(env.xlen);
    var rs, rt := ReadGp(s.regs, inst.rs).bits, ReadGp(s.regs, inst.rt).bits;
    BranchSignals(env, inst);
    PlainStep(env, s, inst, predicted);
    RunsExecute(env, s, inst);
    ReachesSum(s.pc, inst.immediate);
    ReachesNext(s.pc);
    BranchAlu(env.xlen, inst.opcode.branch, rs, rt);
  }

  // ---------------------------------------------------------------- CSR instructions

  lemma CsrSignals(env: Env, inst: Instruction)
    requires inst.opcode.Csr?
    ensures
      var g, kind := SignalsOf(env, inst), inst.opcode.csrKind;
      && g.component == BasicAlu(match kind case CSRRW => ADD case CSRRS => OR case CSRRC => AND)
      && g.wOperation == (env.xlen != Xlen64) && g.aluMod == (kind == CSRRC) && !g.aluPc && !g.alusrc
      && g.csrToAlu == (kind != CSRRW) && g.csr && g.regwrite && !g.xret && g.memctl == AccessNone
      && g.csrWrite == (kind == CSRRW || inst.rs != 0) && !g.branchBxx && !g.branchJal && !g.branchJalr
    ensures NumRd(inst) == inst.rd && NumRs(inst) == inst.rs && NumRt(inst) == 0
    ensures Has(FlagsOf(inst.opcode), IMF_ALU_RS_ID) == inst.opcode.immediate
    ensures Has(FlagsOf(inst.opcode), IMF_CSR)
  {
  }

  /** The operand of a CSR instruction: a register, or its number as an immediate. */
  function CsrOperand(s: ArchState, inst: Instruction): bv64
    requires inst.opcode.Csr?
  {
    if inst.opcode.immediate then inst.rs as bv64 else ReadGp(s.regs, inst.rs).bits
  }

  /** What a CSR instruction writes, from its operand and the old value. */
  function CsrResult(kind: CsrKind, operand: nat, held: nat): nat {
    match kind
    case CSRRW => operand
    case CSRRS => Bitwise(Disjunction, operand, held)
    case CSRRC => Bitwise(Clearing, operand, held)
  }

  lemma CsrExact(xlen: Xlen, kind: CsrKind, a: bv64, b: bv64)
    ensures
      var w := XlenBits(xlen);
      var op := match kind case CSRRW => ADD case CSRRS => OR case CSRRC => AND;
      Holds(xlen, Word(TruncateBits(xlen, Operate(BasicAlu(op), xlen != Xlen64, kind == CSRRC, a,
                                                  if kind == CSRRW then 0 else b))),
            CsrResult(kind, LowNumber(w, a), LowNumber(w, b)))
  {
    hide Operate, TruncateBits, Unsigned, Signed, Pow2, Bitwise, SignedOf;
    var w := XlenBits(xlen);
    var op := match kind case CSRRW => ADD case CSRRS => OR case CSRRC => AND;
    var snd := if kind == CSRRW then 0 else b;
    SmallNumbers();
    Pow2Bytes();
    BasicIs(op, xlen != Xlen64, kind == CSRRC, a, snd);
    CutIs(xlen, Operate(BasicAlu(op), xlen != Xlen64, kind == CSRRC, a, snd));
    SignedOfModulo(w, Exact(op, kind == CSRRC, w, LowNumber(w, a), LowNumber(w, snd)));
  }

  /**
   * A CSR instruction leaves the old value in its destination and writes the operand, the old value with the
   * operand's bits set or the old value with them cleared; setting and clearing with operand zero writes nothing.
   */
  lemma CsrMeaning(env: Env, s: ArchState, inst: Instruction, predicted: Word) returns (v: Word)
    requires Runs(env, s, inst) && inst.opcode.Csr?
    ensures
      var w, c, s' := XlenBits(env.xlen), Counted(env, s.control), SingleStep(env, s, predicted);
      && Holds(env.xlen, v, CsrResult(inst.opcode.csrKind, LowNumber(w, CsrOperand(s, inst)),
                                      LowNumber(w, s.control.csrs[inst.csr].bits)))
      && s'.regs == WriteGp(s.regs, inst.rd, Truncate(env.xlen, s.control.csrs[inst.csr]))
      && Reaches(s'.pc, Unsigned(s.pc.bits) + 4) && s'.memory == s.memory
      && s'.control == if inst.opcode.csrKind == CSRRW || inst.rs != 0
                       then c.(csrs := Write(env.xlen, c.csrs, inst.csr, v)) else c
  {
    hide SingleExecute, SignalsOf, Runs, SingleStep, Counted, WriteGp, NumRs, NumRt, NumRd, FlagsOf, Has, Offset,
      Truncate, Reaches, Operate, TruncateBits, Unsigned, Holds, Write, CsrResult, LowNumber;
    CsrSignals(env, inst);
    PlainStep(env, s, inst, predicted);
    RunsExecute(env, s, inst);
    ReachesNext(s.pc);
    v := SingleExecute(env, s, ZERO).aluVal;
    CsrExact(env.xlen, inst.opcode.csrKind, CsrOperand(s, inst), TruncateBits(env.xlen, s.control.csrs[inst.csr].bits));
    CutLow(env.xlen, s.control.csrs[inst.csr].bits);
    TruncatedBits(env.xlen, s.control.csrs[inst.csr]);
  }

  lemma TruncatedBits(xlen: Xlen, v: Word)
    ensures Truncate(xlen, v).bits == TruncateBits(xlen, v.bits)
  {
  }

  lemma CutLow(xlen: Xlen, v: bv64)
    ensures LowNumber(XlenBits(xlen), TruncateBits(xlen, v)) == LowNumber(XlenBits(xlen), v)
  {
    hide Unsigned, Low32, Pow2;
    Pow2Bytes();
    LowIs(v);
  }
}
