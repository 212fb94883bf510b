/** When interrupts are requested, and what a delivered trap and a return leave in the CSRs and the program counter. */
module TrapMeaning {
  import opened Words
  import opened Numbers
  import opened SignedNumbers
  import opened Alu
  import opened AluMeaning
  import opened BitFields
  import opened MachineDefs
  import opened CsrFunctions
  import opened StatusStack
  import opened InstructionSet
  import opened Stages
  import opened Refinement
  import opened InstructionMeaning
  import opened MemoryMeaning

  // ---------------------------------------------------------------- bits

  /** Bit `i` of a register. */
  predicate HasBit(v: Word, i: nat) {
    BitOf(Unsigned(v.bits), i)
  }

  /** Some bit is set in both registers. */
  ghost predicate Pending(enabled: Word, pending: Word) {
    exists i :: 0 <= i < 64 && HasBit(enabled, i) && HasBit(pending, i)
  }

  lemma {:induction false} SomeBit(n: nat, k: nat) returns (i: nat)
    requires 0 < n < Pow2(k)
    ensures i < k && BitOf(n, i)
    decreases k
  {
    if n % 2 == 1 {
      i := 0;
    } else {
      var j := SomeBit(n / 2, k - 1);
      i := j + 1;
      BitOfHalf(n, i);
    }
  }

  lemma SelectAnds(mask: bv64, val: bv64)
    ensures Select(mask, val) == AndBits(val, mask)
  {
  }

  /** The mask admits something exactly when some bit is in both. */
  lemma SelectIff(enabled: Word, pending: Word)
    ensures Select(enabled.bits, pending.bits) != 0 <==> Pending(enabled, pending)
  {
    hide Unsigned, Select, AndBits, BitOf, Bitwise;
    var x, y := Unsigned(pending.bits), Unsigned(enabled.bits);
    var n := Bitwise(Conjunction, x, y);
    SelectAnds(enabled.bits, pending.bits);
    LogicIs(Conjunction, pending.bits, enabled.bits);
    ZeroNumber(Select(enabled.bits, pending.bits));
    Bounded(Select(enabled.bits, pending.bits));
    if n > 0 {
      Pow2Bytes();
      var i := SomeBit(n, 64);
      BitwiseAt(Conjunction, x, y, i);
      assert HasBit(enabled, i) && HasBit(pending, i);
    }
    if Pending(enabled, pending) {
      var i :| 0 <= i < 64 && HasBit(enabled, i) && HasBit(pending, i);
      BitwiseAt(Conjunction, x, y, i);
      NoBits(i);
    }
  }

  // ---------------------------------------------------------------- interrupt requests

  lemma ReadSie(f: CsrFile)
    ensures ReadField(f, MSTATUS_SIE) == Bit(StatusOf(f[MSTATUS].bits).sie)
  {
  }

  /** A machine interrupt is enabled and pending, and the level lets it through. */
  ghost predicate TakesMachine(f: CsrFile, level: Privilege) {
    Pending(f[MIE], f[MIP]) && (level != Machine || Stack(f).mie)
  }

  ghost predicate TakesSupervisor(f: CsrFile, level: Privilege) {
    Pending(f[SIE], f[SIP]) && (level == Unprivileged || (level == Supervisor && Stack(f).sie))
  }

  /** Which interrupt is requested, by bits of the enable and pending registers and the level. */
  lemma RequestIff(f: CsrFile, level: Privilege)
    ensures CoreInterruptRequest(f, level) == InterruptM <==> TakesMachine(f, level)
    ensures CoreInterruptRequest(f, level) == InterruptS <==> !TakesMachine(f, level) && TakesSupervisor(f, level)
    ensures CoreInterruptRequest(f, level) == NoException <==> !TakesMachine(f, level) && !TakesSupervisor(f, level)
  {
    hide ReadField, Pending, Select, StatusOf;
    ReadMie(f);
    ReadSie(f);
    SelectIff(f[MIE], f[MIP]);
    SelectIff(f[SIE], f[SIP]);
  }

  /** The cause of the instruction at `pc`: illegality, its fetch, an interrupt, or its own call or break. */
  ghost function ExpectedCause(env: Env, c: Control, pc: Word): ExceptionCause {
    var f := env.program(pc, c.privilege, c.csrs[SATP]);
    if !Allowed(env, c.privilege, f.inst.opcode) then InsnIllegal
    else if f.excause != NoException then f.excause
    else if TakesMachine(c.csrs, c.privilege) then InterruptM
    else if TakesSupervisor(c.csrs, c.privilege) then InterruptS
    else if f.inst.opcode == Ebreak then Break
    else if f.inst.opcode == Ecall then
      if c.privilege == Unprivileged then EcallU else if c.privilege == Supervisor then EcallS else EcallM
    else NoException
  }

  lemma StaticCause(env: Env, c: Control, e: ExecuteInterstage)
    requires MaskOk(env, c) && Static(env, c, e)
    ensures e.excause == ExpectedCause(env, c, e.instAddr)
  {
    hide MaskOk, DecodedCause, Allowed, SignalsOf, CoreInterruptRequest, TakesMachine, TakesSupervisor;
    var f := FetchedAt(env, c, e.instAddr);
    RequestIff(c.csrs, c.privilege);
    CauseMeaning(env, c, f.inst, f.excause);
  }

  /** In every cycle of every run, in every configuration, what is about to pass the memory stage has that cause. */
  lemma CauseOverRuns(env: Env, s: ArchState, cycles: nat)
    requires MaskOk(env, s.control)
    ensures
      var p := PipeRun(env, PipeReset(s), cycles);
      p.exMem.isValid ==> p.exMem.excause == ExpectedCause(env, p.control, p.exMem.instAddr)
  {
    hide PipeRun, MaskOk, PipeReset, Inv, Static, ExpectedCause, FetchShape, DecodeShape, Path;
    var p := PipeRun(env, PipeReset(s), cycles);
    ResetInv(env, s);
    InvParts(env, PipeReset(s));
    StructureRun(env, PipeReset(s), cycles);
    if p.exMem.isValid {
      StaticCause(env, p.control, p.exMem);
    }
  }

  // ---------------------------------------------------------------- delegation

  lemma {:induction false} BitwisePower(x: nat, k: nat)
    ensures Bitwise(Conjunction, x, Pow2(k)) == if BitOf(x, k) then Pow2(k) else 0
    decreases k
  {
    if k == 0 {
      BitwiseNone(x / 2);
      assert Bitwise(Conjunction, x, 1) == 2 * Bitwise(Conjunction, x / 2, 0) + Digit(x % 2 == 1);
    } else {
      BitOfHalf(x, k);
      BitwisePower(x / 2, k - 1);
    }
  }

  lemma {:induction false} BitwiseNone(x: nat)
    ensures Bitwise(Conjunction, x, 0) == 0
  {
    if x > 0 {
      BitwiseNone(x / 2);
    }
  }

  lemma BitSetIs(v: bv64, index: bv64)
    requires Unsigned(index) < 64
    ensures BitSet(v, index) <==> BitOf(Unsigned(v), Unsigned(index))
  {
    hide Unsigned, AndBits, ShiftedLeft, Amount, Bitwise, Pow2, BitOf;
    var k := Amount(index);
    AmountIs(index);
    ShiftLeftIs(1, k);
    SmallNumbers();
    Pow2Bytes();
    Pow2Grows(k as nat, 63);
    Pow2Signs();
    LogicIs(Conjunction, v, ShiftedLeft(1, k));
    BitwisePower(Unsigned(v), k as nat);
    ZeroNumber(AndBits(v, ShiftedLeft(1, k)));
  }

  /** The exception codes of the privileged architecture; those from 16 on are the simulator's own. */
  function CauseNumber(cause: ExceptionCause): nat {
    match cause
    case NoException => 0
    case InsnFault => 1
    case InsnIllegal => 2
    case Break => 3
    case LoadMisaligned => 4
    case LoadFault => 5
    case StoreMisaligned => 6
    case StoreFault => 7
    case EcallU => 8
    case EcallS => 9
    case Reserved10 => 10
    case EcallM => 11
    case InsnPageFault => 12
    case LoadPageFault => 13
    case Reserved14 => 14
    case StorePageFault => 15
    case HwBreak => 16
    case EcallAny => 17
    case InterruptM => 18
    case InterruptS => 19
  }

  lemma CauseNumbers(cause: ExceptionCause)
    ensures Unsigned(cause.Code()) == CauseNumber(cause) < 64
  {
  }

  /** Interrupts go to their own level; exceptions to M unless they come from S or U and medeleg has their bit. */
  predicate Delegated(c: Control, cause: ExceptionCause) {
    if cause == InterruptM || cause == InterruptS then cause == InterruptS
    else (c.privilege == Supervisor || c.privilege == Unprivileged) && HasBit(c.csrs[MEDELEG], CauseNumber(cause))
  }

  lemma DelegatedIs(c: Control, cause: ExceptionCause)
    ensures DeliverToSupervisor(c, cause) <==> Delegated(c, cause)
  {
    hide BitSet, BitOf, Unsigned;
    CauseNumbers(cause);
    BitSetIs(c.csrs[MEDELEG].bits, cause.Code());
  }

  // ---------------------------------------------------------------- the number of an interrupt

  /** The lowest interrupt that is enabled and pending, among those below 32; 0 if there is none. */
  ghost predicate LowestPending(enabled: Word, pending: Word, n: nat) {
    if exists i :: 0 <= i < 32 && HasBit(enabled, i) && HasBit(pending, i)
    then n < 32 && HasBit(enabled, n) && HasBit(pending, n)
         && forall i :: 0 <= i < n ==> !(HasBit(enabled, i) && HasBit(pending, i))
    else n == 0
  }

  lemma AmountNumbers(k: bv6)
    ensures Unsigned(k as bv64) == k as nat
    ensures k < 32 ==> (k + 1) as nat == k as nat + 1
    ensures k < 32 <==> k as nat < 32
  {
  }

  lemma OddAnds(v: bv64, k: bv6)
    ensures Odd(ShiftedRight(v, k)) <==> (v >> k) & 1 == 1
  {
  }

  lemma BitAtIs(v: bv64, k: bv6)
    ensures (v >> k) & 1 == 1 <==> BitOf(Unsigned(v), k as nat)
  {
    hide Unsigned, Odd, ShiftedRight, Pow2, Half;
    OddAnds(v, k);
    ShiftRightIs(v, k);
    Digits(ShiftedRight(v, k));
  }

  /** The search from bit `from` on. */
  lemma {:induction false} LowestIs(v: bv64, from: bv6)
    requires from <= 32
    ensures
      var n := Unsigned(LowestSetBit(v, from));
      if exists i: nat :: from as nat <= i < 32 && BitOf(Unsigned(v), i)
      then from as nat <= n < 32 && BitOf(Unsigned(v), n)
           && forall i: nat :: from as nat <= i < n ==> !BitOf(Unsigned(v), i)
      else n == 0
    decreases 32 - from as int
  {
    hide Unsigned, BitOf;
    AmountNumbers(from);
    if from < 32 {
      BitAtIs(v, from);
      if (v >> from) & 1 != 1 {
        LowestIs(v, from + 1);
      }
    } else {
      SmallNumbers();
    }
  }

  lemma TopBitsAdd(n: bv64)
    ensures n < 32 ==> n | 0x8000_0000 == n + 0x8000_0000
    ensures n < 32 ==> n | 0x8000_0000_0000_0000 == n + 0x8000_0000_0000_0000
  {
  }

  lemma TopBitNumbers()
    ensures Unsigned(0x8000_0000) == 0x8000_0000 && Unsigned(0x8000_0000_0000_0000) == 0x8000_0000_0000_0000
    ensures Unsigned(32) == 32
  {
  }

  lemma WithTopBit(xlen: Xlen, n: bv64)
    requires Unsigned(n) < 32
    ensures Unsigned(Flagged(xlen, n)) == Unsigned(n) + Pow2(XlenBits(xlen) - 1)
  {
    hide Unsigned, Add, Less, Pow2;
    Pow2Signs();
    TopBitNumbers();
    LessIs(n, 32);
    Below32(n);
    TopBitsAdd(n);
    AddAdds(n, 0x8000_0000);
    AddAdds(n, 0x8000_0000_0000_0000);
    SumIs(n, 0x8000_0000);
    SumIs(n, 0x8000_0000_0000_0000);
  }

  lemma Below32(n: bv64)
    ensures Less(n, 32) <==> n < 32
  {
  }

  lemma SelectAt(enabled: Word, pending: Word, i: nat)
    ensures BitOf(Unsigned(Select(enabled.bits, pending.bits)), i) <==> HasBit(enabled, i) && HasBit(pending, i)
  {
    hide Unsigned, Select, AndBits, BitOf, Bitwise;
    SelectAnds(enabled.bits, pending.bits);
    LogicIs(Conjunction, pending.bits, enabled.bits);
    BitwiseAt(Conjunction, Unsigned(pending.bits), Unsigned(enabled.bits), i);
  }

  lemma LowestSelected(enabled: Word, pending: Word)
    ensures
      var n := Unsigned(LowestSetBit(Select(enabled.bits, pending.bits), 0));
      n < 32 && LowestPending(enabled, pending, n)
  {
    hide Unsigned, Select, BitOf, LowestSetBit, HasBit;
    LowestIs(Select(enabled.bits, pending.bits), 0);
    forall i: nat
      ensures BitOf(Unsigned(Select(enabled.bits, pending.bits)), i) <==> HasBit(enabled, i) && HasBit(pending, i)
    {
      SelectAt(enabled, pending, i);
    }
  }

  /** The cause recorded for an interrupt: its number below the top bit of the machine's width. */
  lemma InterruptCauseIs(xlen: Xlen, enabled: Word, pending: Word) returns (n: nat)
    ensures LowestPending(enabled, pending, n)
    ensures Unsigned(InterruptCause(xlen, enabled, pending).bits) == n + Pow2(XlenBits(xlen) - 1)
  {
    hide Unsigned, Select, LowestSetBit, Flagged, LowestPending, Pow2;
    var v := LowestSetBit(Select(enabled.bits, pending.bits), 0);
    n := Unsigned(v);
    LowestSelected(enabled, pending);
    WithTopBit(xlen, v);
  }

  // ---------------------------------------------------------------- what a trap records

  lemma FullMask(reg: bv64, val: bv64)
    ensures Masked(0xffff_ffff_ffff_ffff, reg, val) == val
  {
  }

  lemma FullMasks()
    ensures WriteMask(MEPC) == WriteMask(SEPC) == WriteMask(MTVAL) == WriteMask(STVAL) == 0xffff_ffff_ffff_ffff
  {
  }

  /** The trap registers take every value, cut to the machine's width. */
  lemma RecordWrites(xlen: Xlen, f: CsrFile, id: CsrId, val: Word)
    requires id in {MEPC, SEPC, MTVAL, STVAL}
    ensures WriteInternal(xlen, f, id, val) == f[id := Truncate(xlen, val)]
  {
    hide Masked, WriteMask, TruncateBits;
    FullMasks();
    FullMask(f[id].bits, val.bits);
  }

  /** The cause register, which is chosen by the interrupted level unless the trap goes to S. */
  function CauseRegister(c: Control, toS: bool): CsrId {
    if !toS && c.privilege == Machine then MCAUSE else SCAUSE
  }

  /** The CSR file once the trap is recorded. */
  lemma RecordIs(env: Env, c: Control, w: MemoryInterstage, toS: bool)
    ensures
      var f := RecordTrap(env, c, w, toS);
      && f[if toS then SEPC else MEPC] == Truncate(env.xlen, w.instAddr)
      && f[if toS then STVAL else MTVAL] == Truncate(env.xlen, if RecordsAddress(w.excause) then w.memAddr else ZERO)
      && f[CauseRegister(c, toS)]
         == (if !w.excause.IsInterrupt() then Word(w.excause.Code())
             else if toS || c.privilege == Supervisor then InterruptCause(env.xlen, c.csrs[SIE], c.csrs[SIP])
             else InterruptCause(env.xlen, c.csrs[MIE], c.csrs[MIP]))
      && forall id: CsrId ::
           id !in {if toS then SEPC else MEPC, if toS then STVAL else MTVAL, CauseRegister(c, toS)} ==>
             f[id] == c.csrs[id]
  {
    hide WriteInternal, InterruptCause, Truncate;
    var value := if RecordsAddress(w.excause) then w.memAddr else ZERO;
    RecordWrites(env.xlen, c.csrs, if toS then SEPC else MEPC, w.instAddr);
    var f1 := WriteInternal(env.xlen, c.csrs, if toS then SEPC else MEPC, w.instAddr);
    RecordWrites(env.xlen, f1, if toS then STVAL else MTVAL, value);
  }

  lemma StatusFieldFrame(xlen: Xlen, f: CsrFile, field: Field, val: bv64, id: CsrId)
    requires field.bits.Fits(64) && (field.reg == MSTATUS || field.reg == SSTATUS) && id != MSTATUS && id != SSTATUS
    ensures WriteField(xlen, f, field, val)[id] == f[id]
  {
    hide DefaultWrite, Merged, Shown, WriteMask, BitField.Encode64, BitField.Mask;
  }

  lemma InitiateFrame(xlen: Xlen, f: CsrFile, act: Privilege, to: Privilege, id: CsrId)
    requires id != MSTATUS && id != SSTATUS
    ensures ExceptionInitiate(xlen, f, act, to)[id] == f[id]
  {
    hide WriteField, ReadField, PrivilegeBits;
    if to == Machine {
      var f1 := WriteField(xlen, f, MSTATUS_MPIE, ReadField(f, MSTATUS_MIE));
      var f2 := WriteField(xlen, f1, MSTATUS_MIE, 0);
      StatusFieldFrame(xlen, f, MSTATUS_MPIE, ReadField(f, MSTATUS_MIE), id);
      StatusFieldFrame(xlen, f1, MSTATUS_MIE, 0, id);
      StatusFieldFrame(xlen, f2, MSTATUS_MPP, PrivilegeBits(act), id);
    } else {
      var f1 := WriteField(xlen, f, SSTATUS_SPIE, ReadField(f, SSTATUS_SIE));
      var f2 := WriteField(xlen, f1, SSTATUS_SIE, 0);
      StatusFieldFrame(xlen, f, SSTATUS_SPIE, ReadField(f, SSTATUS_SIE), id);
      StatusFieldFrame(xlen, f1, SSTATUS_SIE, 0, id);
      StatusFieldFrame(xlen, f2, SSTATUS_SPP, if act == Supervisor then 1 else 0, id);
    }
  }

  lemma ReturnFrame(xlen: Xlen, f: CsrFile, act: Privilege, xret: Privilege, id: CsrId)
    requires id != MSTATUS && id != SSTATUS
    ensures ExceptionReturn(xlen, f, act, xret).0[id] == f[id]
  {
    hide WriteField, ReadField, Select, PrivilegeOfBits;
    var popped := f;
    if xret == Machine {
      var f1 := WriteField(xlen, f, MSTATUS_MIE, ReadField(f, MSTATUS_MPIE));
      var f2 := WriteField(xlen, f1, MSTATUS_MPIE, 1);
      StatusFieldFrame(xlen, f, MSTATUS_MIE, ReadField(f, MSTATUS_MPIE), id);
      StatusFieldFrame(xlen, f1, MSTATUS_MPIE, 1, id);
      StatusFieldFrame(xlen, f2, MSTATUS_MPP, 0, id);
      popped := WriteField(xlen, f2, MSTATUS_MPP, 0);
    } else if xret == Supervisor {
      var f1 := WriteField(xlen, f, MSTATUS_SIE, ReadField(f, MSTATUS_SPIE));
      var f2 := WriteField(xlen, f1, MSTATUS_SPIE, 1);
      StatusFieldFrame(xlen, f, MSTATUS_SIE, ReadField(f, MSTATUS_SPIE), id);
      StatusFieldFrame(xlen, f1, MSTATUS_SPIE, 1, id);
      StatusFieldFrame(xlen, f2, MSTATUS_SPP, 0, id);
      popped := WriteField(xlen, f2, MSTATUS_SPP, 0);
    }
    StatusFieldFrame(xlen, popped, MSTATUS_MPRV, 0, id);
  }

  // ---------------------------------------------------------------- delivery

  /** An illegal instruction ends the simulation, and a hardware breakpoint may only stop it. */
  predicate Delivered(env: Env, cause: ExceptionCause) {
    cause != NoException && cause != InsnIllegal && !(cause == HwBreak && env.stopOn(HwBreak))
  }

  /** The causes that come with an address. */
  predicate HasAddress(cause: ExceptionCause) {
    || cause.InsnFault? || cause.LoadFault? || cause.StoreFault? || cause.LoadMisaligned? || cause.StoreMisaligned?
    || cause.InsnPageFault? || cause.LoadPageFault? || cause.StorePageFault?
  }

  /** What the cause register shows: the number of an exception, or the lowest pending interrupt with the top bit. */
  ghost predicate ShowsCause(env: Env, c: Control, cause: ExceptionCause, v: Word) {
    var shown := Delegated(c, cause) || c.privilege == Supervisor;
    if !cause.IsInterrupt() then Unsigned(v.bits) == CauseNumber(cause)
    else if shown then ShowsInterrupt(env.xlen, c.csrs[SIE], c.csrs[SIP], v)
    else ShowsInterrupt(env.xlen, c.csrs[MIE], c.csrs[MIP], v)
  }

  ghost predicate ShowsInterrupt(xlen: Xlen, enabled: Word, pending: Word, v: Word) {
    exists n: nat :: LowestPending(enabled, pending, n) && Unsigned(v.bits) == n + Pow2(XlenBits(xlen) - 1)
  }

  /** The registers a trap at `pc` with access address `a` writes, and no others but the status and the count. */
  ghost predicate Recorded(env: Env, c: Control, f: CsrFile, cause: ExceptionCause, pc: Word, a: Word) {
    var toS := Delegated(c, cause);
    var epc: CsrId, tval: CsrId := if toS then SEPC else MEPC, if toS then STVAL else MTVAL;
    && Holds(env.xlen, f[epc], Unsigned(pc.bits))
    && Holds(env.xlen, f[tval], if HasAddress(cause) then Unsigned(a.bits) else 0)
    && ShowsCause(env, c, cause, f[CauseRegister(c, toS)])
    && forall id: CsrId :: id !in {epc, tval, CauseRegister(c, toS), MSTATUS, SSTATUS, MINSTRET} ==> f[id] == c.csrs[id]
  }

  lemma TruncatedHolds(xlen: Xlen, v: Word)
    ensures Holds(xlen, Truncate(xlen, v), Unsigned(v.bits))
  {
    hide Unsigned, TruncateBits, Pow2, Signed;
    CutIs(xlen, v.bits);
    SignedModulo(v.bits);
    Pow2Bytes();
    Modulo32(Signed(v.bits));
  }

  lemma AddressCauses(cause: ExceptionCause)
    ensures RecordsAddress(cause) <==> HasAddress(cause)
  {
  }

  lemma CauseShown(env: Env, c: Control, cause: ExceptionCause)
    ensures
      var shown := Delegated(c, cause) || c.privilege == Supervisor;
      ShowsCause(env, c, cause,
                 if !cause.IsInterrupt() then Word(cause.Code())
                 else if shown then InterruptCause(env.xlen, c.csrs[SIE], c.csrs[SIP])
                 else InterruptCause(env.xlen, c.csrs[MIE], c.csrs[MIP]))
  {
    hide Unsigned, InterruptCause, LowestPending, Delegated, Pow2;
    CauseNumbers(cause);
    var n := InterruptCauseIs(env.xlen, c.csrs[SIE], c.csrs[SIP]);
    var k := InterruptCauseIs(env.xlen, c.csrs[MIE], c.csrs[MIP]);
  }

  lemma RecordedIs(env: Env, c: Control, w: MemoryInterstage)
    ensures
      var f := RecordTrap(env, c, w, Delegated(c, w.excause));
      && Recorded(env, c, f, w.excause, w.instAddr, w.memAddr) && f[MSTATUS] == c.csrs[MSTATUS]
      && f[SSTATUS] == c.csrs[SSTATUS] && f[STVEC] == c.csrs[STVEC] && f[MTVEC] == c.csrs[MTVEC]
  {
    hide RecordTrap, Delegated, ShowsCause, Unsigned, Holds, Truncate, InterruptCause, HasAddress, RecordsAddress;
    var cause := w.excause;
    RecordIs(env, c, w, Delegated(c, cause));
    AddressCauses(cause);
    TruncatedHolds(env.xlen, w.instAddr);
    TruncatedHolds(env.xlen, w.memAddr);
    TruncatedHolds(env.xlen, ZERO);
    SmallNumbers();
    CauseShown(env, c, cause);
  }

  /** The status stack after entry to a level. */
  function Pushed(st: Status, level: Privilege, toS: bool): Status {
    if toS then st.(spie := st.sie, sie := false, spp := level == Supervisor)
    else st.(mpie := st.mie, mie := false, mpp := level)
  }

  lemma EntryIs(env: Env, c: Control, toS: bool)
    ensures
      var (c', pc) := EnterHandler(env, c, if toS then Supervisor else Machine);
      && pc == c.csrs[if toS then STVEC else MTVEC] && c'.privilege == (if toS then Supervisor else Machine)
      && c'.reserved == c.reserved
      && ((toS ==> Aliased(env.xlen, c.csrs)) ==> Stack(c'.csrs) == Pushed(Stack(c.csrs), c.privilege, toS))
    ensures
      var (c', _) := EnterHandler(env, c, if toS then Supervisor else Machine);
      forall id: CsrId :: id != MSTATUS && id != SSTATUS ==> c'.csrs[id] == c.csrs[id]
  {
    hide ExceptionInitiate, StatusOf, Aliased, MaskAt;
    var to := if toS then Supervisor else Machine;
    forall id: CsrId | id != MSTATUS && id != SSTATUS
      ensures ExceptionInitiate(env.xlen, c.csrs, c.privilege, to)[id] == c.csrs[id]
    {
      InitiateFrame(env.xlen, c.csrs, c.privilege, to, id);
    }
    if !toS {
      EnterMachine(env.xlen, c.csrs, c.privilege);
    } else if Aliased(env.xlen, c.csrs) {
      EnterSupervisor(env.xlen, c.csrs, c.privilege);
    }
  }

  lemma RecordedLater(env: Env, c: Control, f: CsrFile, f': CsrFile, cause: ExceptionCause, pc: Word, a: Word)
    requires Recorded(env, c, f, cause, pc, a) && forall id: CsrId :: id != MSTATUS && id != SSTATUS ==> f'[id] == f[id]
    ensures Recorded(env, c, f', cause, pc, a)
  {
    hide Holds, ShowsCause, Delegated, Unsigned;
  }

  /** What a delivered trap leaves: the recorded registers, and the handler entered if there is one. */
  lemma DeliveryMeaning(env: Env, c: Control, w: MemoryInterstage)
    requires Delivered(env, w.excause)
    ensures
      var cause, (c', pc) := w.excause, HandleException(env, c, w);
      var toS := Delegated(c, cause);
      var handler := c.csrs[if toS then STVEC else MTVEC];
      && Recorded(env, c, c'.csrs, cause, w.instAddr, w.memAddr) && c'.reserved == EMPTY_RANGE
      && (if handler != ZERO && !env.stepOver(cause)
          then pc == handler && c'.privilege == (if toS then Supervisor else Machine)
               && ((toS ==> Aliased(env.xlen, c.csrs)) ==>
                     Stack(c'.csrs) == Pushed(Stack(c.csrs), c.privilege, toS))
          else pc == (if cause == HwBreak then w.instAddr else w.computedNextInstAddr) && c'.privilege == c.privilege
               && Stack(c'.csrs) == Stack(c.csrs))
  {
    hide RecordTrap, EnterHandler, Recorded, Delegated, DeliverToSupervisor, StatusOf, Aliased;
    var toS := Delegated(c, w.excause);
    DelegatedIs(c, w.excause);
    RecordedIs(env, c, w);
    var f := RecordTrap(env, c, w, toS);
    var c1 := c.(csrs := f, reserved := EMPTY_RANGE);
    EntryIs(env, c1, toS);
    RecordedLater(env, c, f, EnterHandler(env, c1, if toS then Supervisor else Machine).0.csrs, w.excause, w.instAddr,
                  w.memAddr);
    RecordKeepsAlias(env, c, w, toS);
  }

  lemma RecordKeepsAlias(env: Env, c: Control, w: MemoryInterstage, toS: bool)
    ensures Aliased(env.xlen, c.csrs) ==> Aliased(env.xlen, RecordTrap(env, c, w, toS))
  {
    hide RecordTrap, Select, InterruptCause, Truncate;
    RecordIs(env, c, w, toS);
  }

  // ---------------------------------------------------------------- steps that trap

  function Passing(env: Env, s: ArchState): MemoryOutcome {
    MemoryStage(env, s.memory, s.control, SingleExecute(env, s, ZERO))
  }

  /** The cause with which the instruction at the program counter leaves the memory stage. */
  function StepCause(env: Env, s: ArchState): ExceptionCause {
    Passing(env, s).interstage.excause
  }

  /** The same but for the count of instructions. */
  predicate SameButCount(c: Control, d: Control) {
    c.privilege == d.privilege && forall id: CsrId :: id != MINSTRET ==> c.csrs[id] == d.csrs[id]
  }

  lemma AccessesOnly(env: Env, inst: Instruction)
    ensures SignalsOf(env, inst).memctl != AccessNone ==> !SignalsOf(env, inst).xret && !SignalsOf(env, inst).csrWrite
  {
  }

  lemma CountedOnly(env: Env, c: Control)
    ensures SameButCount(Counted(env, c), c)
  {
    hide DefaultWrite, WriteMask;
  }

  lemma FaultIsAccess(env: Env, m: Memory, c: Control, e: ExecuteInterstage)
    ensures DataAccess(env, m, c, e).fault ==> e.signals.memctl != AccessNone
    ensures DataAccess(env, m, c, e).fault ==> e.excause == NoException && DataAccess(env, m, c, e).memory == m
  {
    hide WriteBytes, WriteCtl, ReadCtl, Read32, Read64, AmoOperation32, AmoOperation64, SignExtend32, RangeAt;
  }

  lemma TrapControl(env: Env, s: ArchState)
    requires StepCause(env, s) != NoException
    ensures SameButCount(Passing(env, s).control, s.control)
    ensures
      var out, e := Passing(env, s), SingleExecute(env, s, ZERO);
      && out.memory == s.memory && !out.interstage.regwrite && out.interstage.instAddr == s.pc
      && out.interstage.memAddr == e.aluVal && out.interstage.excause == StepCause(env, s)
      && out.interstage.computedNextInstAddr == ComputedNextInstAddr(e)
  {
    hide SingleExecute, DataAccess, SignalsOf, WriteInternal, Write, ReturnAddress, WritebackValue,
      ComputedNextInstAddr, SameButCount, Counted;
    var e := SingleExecute(env, s, ZERO);
    SingleExecuteCopies(env, s, ZERO);
    SingleSignals(env, s);
    AccessesOnly(env, e.inst);
    FaultIsAccess(env, s.memory, s.control, e);
    AccessMemoryKept(env, s.memory, s.control, e);
    var access := DataAccess(env, s.memory, s.control, e);
    if e.excause == NoException {
      CountedSame(env, s.control, access.reserved);
    } else {
      ReservedSame(s.control, access.reserved);
    }
  }

  lemma AccessMemoryKept(env: Env, m: Memory, c: Control, e: ExecuteInterstage)
    ensures e.excause != NoException ==> DataAccess(env, m, c, e).memory == m
  {
  }

  lemma SingleSignals(env: Env, s: ArchState)
    ensures SingleExecute(env, s, ZERO).signals == SignalsOf(env, SingleExecute(env, s, ZERO).inst)
  {
    hide AluResult, RsValue, ReadGp, CsrReadValue, DecodedCause, SignalsOf, NumRs, NumRt, NumRd, Plus;
  }

  lemma CountedSame(env: Env, c: Control, reserved: AddressRange)
    ensures
      var csrs := WriteInternal(env.xlen, c.csrs, MINSTRET, Offset(c.csrs[MINSTRET], 1));
      SameButCount(c.(reserved := reserved, csrs := csrs), c)
  {
    hide Offset;
    CountedOnly(env, c);
  }

  lemma ReservedSame(c: Control, reserved: AddressRange)
    ensures SameButCount(c.(reserved := reserved), c)
  {
  }

  lemma RecordedFrom(env: Env, c: Control, d: Control, f: CsrFile, cause: ExceptionCause, pc: Word, a: Word)
    requires Recorded(env, c, f, cause, pc, a) && SameButCount(c, d)
    ensures Recorded(env, d, f, cause, pc, a) && Delegated(c, cause) == Delegated(d, cause)
  {
    hide Holds, HasBit, Unsigned, LowestPending;
  }

  lemma SameStack(xlen: Xlen, c: Control, d: Control)
    requires SameButCount(c, d)
    ensures Stack(c.csrs) == Stack(d.csrs) && Aliased(xlen, c.csrs) == Aliased(xlen, d.csrs)
  {
    hide StatusOf, Select;
  }

  /** Whether the handler of a trap is entered. */
  predicate Enters(env: Env, c: Control, cause: ExceptionCause) {
    c.csrs[if Delegated(c, cause) then STVEC else MTVEC] != ZERO && !env.stepOver(cause)
  }

  /**
   * A step that traps, whatever the cause: registers and memory stay; the address of the instruction, the address of
   * its access and the cause are recorded; the handler of the level the trap is delegated to, if it has one, is
   * entered with the status pushed.
   */
  lemma TrapStep(env: Env, s: ArchState, predicted: Word)
    requires Delivered(env, StepCause(env, s))
    ensures
      var s', cause := SingleStep(env, s, predicted), StepCause(env, s);
      var toS := Delegated(s.control, cause);
      && s'.regs == s.regs && s'.memory == s.memory && s'.control.reserved == EMPTY_RANGE
      && Recorded(env, s.control, s'.control.csrs, cause, s.pc, SingleExecute(env, s, ZERO).aluVal)
      && (if Enters(env, s.control, cause)
          then s'.pc == s.control.csrs[if toS then STVEC else MTVEC]
               && s'.control.privilege == (if toS then Supervisor else Machine)
               && ((toS ==> Aliased(env.xlen, s.control.csrs)) ==>
                     Stack(s'.control.csrs) == Pushed(Stack(s.control.csrs), s.control.privilege, toS))
          else s'.pc == (if cause == HwBreak then s.pc else ComputedNextInstAddr(SingleExecute(env, s, ZERO)))
               && s'.control.privilege == s.control.privilege && Stack(s'.control.csrs) == Stack(s.control.csrs))
  {
    hide SingleExecute, ComputedNextInstAddr, MemoryStage, HandleException, Recorded, Delegated, StatusOf, Aliased,
      SameButCount;
    var out := Passing(env, s);
    PredictionIrrelevant(env, s, predicted, ZERO);
    TrapControl(env, s);
    DeliveryMeaning(env, out.control, out.interstage);
    RecordedFrom(env, out.control, s.control, SingleStep(env, s, predicted).control.csrs, StepCause(env, s), s.pc,
                 SingleExecute(env, s, ZERO).aluVal);
    SameStack(env.xlen, out.control, s.control);
    SameVectors(out.control, s.control);
  }

  lemma SameVectors(c: Control, d: Control)
    requires SameButCount(c, d)
    ensures c.csrs[STVEC] == d.csrs[STVEC] && c.csrs[MTVEC] == d.csrs[MTVEC] && c.privilege == d.privilege
  {
  }

  lemma AccessFaults(env: Env, m: Memory, c: Control, e: ExecuteInterstage)
    requires IsAccess(e.inst.opcode) && e.signals == SignalsOf(env, e.inst) && e.excause == NoException
    ensures
      var op := if e.inst.opcode.Load? then ReadOp else WriteOp;
      DataAccess(env, m, c, e).fault == env.dataFault(e.aluVal, op, c.privilege, c.csrs)
  {
    hide SignalsOf, NumRs, NumRt, NumRd, FlagsOf, Has, WriteBytes, WriteCtl, ReadCtl, Read32, Read64, AmoOperation32,
      AmoOperation64, SignExtend32, RangeAt;
    AccessSignals(env, e.inst);
  }

  /** A load faults as a load; a store, an atomic and a load-reserved fault as stores; the address is recorded. */
  lemma AccessCause(env: Env, s: ArchState, inst: Instruction)
    requires Runs(env, s, inst) && IsAccess(inst.opcode)
    ensures
      var op := if inst.opcode.Load? then ReadOp else WriteOp;
      StepCause(env, s)
      == if !env.dataFault(Address(env, s, inst), op, s.control.privilege, s.control.csrs) then NoException
         else if inst.opcode.Load? then LoadPageFault
         else StorePageFault
    ensures SingleExecute(env, s, ZERO).aluVal == Address(env, s, inst)
  {
    hide SingleExecute, SignalsOf, Runs, Address, DataAccess, ControlAfter, ReturnAddress, WritebackValue,
      ComputedNextInstAddr, NumRs, NumRt, NumRd, FlagsOf, Has;
    RunsExecute(env, s, inst);
    AccessExecutes(env, s, inst);
    AccessSignals(env, inst);
    AccessFaults(env, s.memory, s.control, SingleExecute(env, s, ZERO));
  }

  // ---------------------------------------------------------------- returns

  predicate IsReturn(op: Opcode) {
    op == Mret || op == Sret
  }

  lemma ReturnSignals(env: Env, inst: Instruction)
    requires IsReturn(inst.opcode)
    ensures
      var g := SignalsOf(env, inst);
      && g.xret && g.xretPrivilege == (if inst.opcode == Mret then Machine else Supervisor)
      && g.memctl == AccessNone && !g.csrWrite && !g.regwrite
  {
  }

  lemma ReturnSteps(env: Env, s: ArchState, inst: Instruction, predicted: Word)
    requires Runs(env, s, inst) && IsReturn(inst.opcode)
    ensures
      var s', c := SingleStep(env, s, predicted), Counted(env, s.control);
      var level := if inst.opcode == Mret then Machine else Supervisor;
      var (csrs, restored) := ExceptionReturn(env.xlen, c.csrs, c.privilege, level);
      && s'.regs == s.regs && s'.memory == s.memory && s'.control.csrs == csrs && s'.control.privilege == restored
      && s'.control.reserved == EMPTY_RANGE
      && s'.pc == Truncate(env.xlen, csrs[if inst.opcode == Mret then MEPC else SEPC])
  {
    hide SingleExecute, SignalsOf, Runs, ComputedNextInstAddr, WritebackValue, WriteInternal, Write, WriteGp,
      ExceptionReturn, MaskAt;
    PredictionIrrelevant(env, s, predicted, ZERO);
    RunsExecute(env, s, inst);
    ReturnSignals(env, inst);
    NoAccess(env, s.memory, s.control, SingleExecute(env, s, ZERO));
  }

  /** The status stack after a return executed at `level`. */
  function Popped(st: Status, level: Privilege, machine: bool): Status {
    if machine
    then st.(mie := st.mpie, mpie := true, mpp := Unprivileged,
             mprv := st.mprv && (level != Machine || st.mpp == Machine))
    else st.(sie := st.spie, spie := true, spp := false, mprv := st.mprv && level != Machine)
  }

  /** mret and sret go back to the recorded address and to the level on the stack, which they pop. */
  lemma ReturnMeaning(env: Env, s: ArchState, inst: Instruction, predicted: Word)
    requires Runs(env, s, inst) && IsReturn(inst.opcode)
    ensures
      var s', f, machine := SingleStep(env, s, predicted), s.control.csrs, inst.opcode == Mret;
      && s'.regs == s.regs && s'.memory == s.memory && s'.control.reserved == EMPTY_RANGE
      && s'.pc == Truncate(env.xlen, f[if machine then MEPC else SEPC])
      && s'.control.privilege
         == (if machine then Stack(f).mpp else if Stack(f).spp then Supervisor else Unprivileged)
      && Stack(s'.control.csrs) == Popped(Stack(f), s.control.privilege, machine)
      && forall id: CsrId :: id !in {MSTATUS, SSTATUS, MINSTRET} ==> s'.control.csrs[id] == f[id]
  {
    hide SingleStep, Runs, ExceptionReturn, StatusOf, Truncate, Counted;
    var c := Counted(env, s.control);
    var level := if inst.opcode == Mret then Machine else Supervisor;
    ReturnSteps(env, s, inst, predicted);
    CountedOnly(env, s.control);
    SameStack(env.xlen, c, s.control);
    LeaveMachine(env.xlen, c.csrs, c.privilege);
    LeaveSupervisor(env.xlen, c.csrs, c.privilege);
    forall id: CsrId | id != MSTATUS && id != SSTATUS
      ensures ExceptionReturn(env.xlen, c.csrs, c.privilege, level).0[id] == c.csrs[id]
    {
      ReturnFrame(env.xlen, c.csrs, c.privilege, level, id);
    }
  }

  // ---------------------------------------------------------------- the status copies over runs

  lemma ControlKeepsAlias(env: Env, c: Control, reserved: AddressRange, e: ExecuteInterstage)
    requires Aliased(env.xlen, c.csrs)
    ensures Aliased(env.xlen, ControlAfter(env, c, reserved, e).csrs)
  {
    hide Aliased, WriteInternal, ExceptionReturn, MaskAt, Offset;
    var f := WriteInternal(env.xlen, c.csrs, MINSTRET, Offset(c.csrs[MINSTRET], 1));
    WriteKeepsAlias(env.xlen, c.csrs, MINSTRET, Offset(c.csrs[MINSTRET], 1));
    if e.signals.csrWrite && Writable(e.inst.csr) {
      WriteKeepsAlias(env.xlen, f, e.inst.csr, e.aluVal);
    }
    var f' := if e.signals.csrWrite then Write(env.xlen, f, e.inst.csr, e.aluVal) else f;
    ReturnKeepsAlias(env.xlen, f', c.privilege, e.signals.xretPrivilege);
  }

  lemma HandlerKeepsAlias(env: Env, c: Control, w: MemoryInterstage)
    requires Aliased(env.xlen, c.csrs)
    ensures Aliased(env.xlen, HandleException(env, c, w).0.csrs)
  {
    hide Aliased, RecordTrap, ExceptionInitiate, MaskAt, DeliverToSupervisor;
    var toS := DeliverToSupervisor(c, w.excause);
    RecordKeepsAlias(env, c, w, toS);
    InitiateKeepsAlias(env.xlen, RecordTrap(env, c, w, toS), c.privilege, if toS then Supervisor else Machine);
  }

  /** Every step of the core keeps the two status copies aliased. */
  lemma StepKeepsAlias(env: Env, s: ArchState, predicted: Word)
    requires Aliased(env.xlen, s.control.csrs)
    ensures Aliased(env.xlen, SingleStep(env, s, predicted).control.csrs)
  {
    hide Aliased, SingleExecute, ControlAfter, HandleException, DataAccess, WritebackValue, ReturnAddress,
      ComputedNextInstAddr;
    var e := SingleExecute(env, s, predicted);
    var out := MemoryStage(env, s.memory, s.control, e);
    ControlKeepsAlias(env, s.control, DataAccess(env, s.memory, s.control, e).reserved, e);
    HandlerKeepsAlias(env, out.control, out.interstage);
  }

  lemma {:induction false} RunKeepsAlias(env: Env, s: ArchState, n: nat)
    requires Aliased(env.xlen, s.control.csrs)
    ensures Aliased(env.xlen, SingleRun(env, s, 0, n).control.csrs)
  {
    hide Aliased, SingleStep;
    if n > 0 {
      RunKeepsAlias(env, s, n - 1);
      SingleRunExtends(env, s, 0, n - 1, ZERO);
      StepKeepsAlias(env, SingleRun(env, s, 0, n - 1), ZERO);
    }
  }

  // ---------------------------------------------------------------- round trips

  lemma RecordedReturn(env: Env, c: Control, f: CsrFile, cause: ExceptionCause, pc: Word, a: Word)
    requires Recorded(env, c, f, cause, pc, a)
    ensures Unsigned(Truncate(env.xlen, f[if Delegated(c, cause) then SEPC else MEPC]).bits)
            == Unsigned(pc.bits) % Pow2(XlenBits(env.xlen))
  {
    hide Unsigned, ShowsCause, Delegated, TruncateBits, Pow2;
    var v := f[if Delegated(c, cause) then SEPC else MEPC];
    TruncatedHolds(env.xlen, v);
    Pow2Bytes();
  }

  /** The return from the trap of `t`, which led to `t'`, finds the recorded address and the pushed status. */
  ghost predicate Returns(env: Env, t: ArchState, t': ArchState, u: ArchState, inst: Instruction) {
    var toS := Delegated(t.control, StepCause(env, t));
    var epc: CsrId := if toS then SEPC else MEPC;
    && Runs(env, u, inst) && inst.opcode == (if toS then Sret else Mret)
    && u.control.csrs[epc] == t'.control.csrs[epc] && SameTop(Stack(u.control.csrs), Stack(t'.control.csrs), toS)
  }

  predicate SameTop(st: Status, st': Status, toS: bool) {
    if toS then st.spie == st'.spie && st.spp == st'.spp else st.mpie == st'.mpie && st.mpp == st'.mpp
  }

  /** Back at the instruction of `t`, at its level and with its interrupt enable. */
  ghost predicate Resumes(env: Env, t: ArchState, u: ArchState) {
    var toS := Delegated(t.control, StepCause(env, t));
    && Unsigned(u.pc.bits) == Unsigned(t.pc.bits) % Pow2(XlenBits(env.xlen))
    && (toS ==> Stack(u.control.csrs).sie == Stack(t.control.csrs).sie)
    && (!toS ==> Stack(u.control.csrs).mie == Stack(t.control.csrs).mie)
    && ((toS ==> t.control.privilege == Supervisor || t.control.privilege == Unprivileged) ==>
          u.control.privilege == t.control.privilege)
  }

  /**
   * A trap at step `n` of a run, and the return at step `m` with the recorded address and the pushed status still in
   * place: the run goes on at the instruction that trapped, at its level and with interrupts enabled as they were.
   */
  lemma TrapRoundTrip(env: Env, s: ArchState, n: nat, m: nat, inst: Instruction)
    requires Aliased(env.xlen, s.control.csrs) && Delivered(env, StepCause(env, SingleRun(env, s, 0, n)))
    requires Enters(env, SingleRun(env, s, 0, n).control, StepCause(env, SingleRun(env, s, 0, n)))
    requires Returns(env, SingleRun(env, s, 0, n), SingleRun(env, s, 0, n + 1), SingleRun(env, s, 0, m), inst)
    ensures Resumes(env, SingleRun(env, s, 0, n), SingleRun(env, s, 0, m + 1))
  {
    hide SingleRun, SingleStep, StepCause, Delegated, Recorded, StatusOf, Aliased, Runs, Truncate, Unsigned, Pow2;
    var t, u := SingleRun(env, s, 0, n), SingleRun(env, s, 0, m);
    SingleRunExtends(env, s, 0, n, ZERO);
    SingleRunExtends(env, s, 0, m, ZERO);
    RunKeepsAlias(env, s, n);
    TrapStep(env, t, ZERO);
    ReturnMeaning(env, u, inst, ZERO);
    RecordedReturn(env, t.control, SingleStep(env, t, ZERO).control.csrs, StepCause(env, t), t.pc,
                   SingleExecute(env, t, ZERO).aluVal);
  }
}
