/** Where the code records the cause of a trap, and where the level that handles it looks for the cause. */
module TrapLimits {
  import opened Words
  import opened Numbers
  import opened AluMeaning
  import opened MachineDefs
  import opened CsrFunctions
  import opened StatusStack
  import opened InstructionSet
  import opened Stages
  import opened Refinement
  import opened InstructionMeaning
  import opened TrapMeaning

  /** The cause register of the level the trap goes to shows its number, or the interrupt that is pending there. */
  ghost predicate CauseInPlace(env: Env, c: Control, f: CsrFile, cause: ExceptionCause) {
    var toS := Delegated(c, cause);
    var v := f[if toS then SCAUSE else MCAUSE];
    if !cause.IsInterrupt() then Unsigned(v.bits) == CauseNumber(cause)
    else if toS then ShowsInterrupt(env.xlen, c.csrs[SIE], c.csrs[SIP], v)
    else ShowsInterrupt(env.xlen, c.csrs[MIE], c.csrs[MIP], v)
  }

  /** The control state with other contents of the cause registers. */
  function Holding(c: Control, held: Word): Control {
    c.(csrs := c.csrs[MCAUSE := held][SCAUSE := held])
  }

  lemma HoldingSame(env: Env, c: Control, held: Word, cause: ExceptionCause, v: Word)
    ensures Delegated(Holding(c, held), cause) == Delegated(c, cause)
    ensures ShowsCause(env, Holding(c, held), cause, v) == ShowsCause(env, c, cause, v)
    ensures CauseRegister(Holding(c, held), Delegated(c, cause)) == CauseRegister(c, Delegated(c, cause))
  {
    hide ShowsInterrupt, HasBit, Unsigned;
  }

  /** A value that no trap records in its cause register. */
  lemma NeverShown(env: Env, c: Control, cause: ExceptionCause) returns (held: Word)
    requires !Delegated(c, cause)
    ensures forall f: CsrFile :: f[MCAUSE] == held ==> !CauseInPlace(env, c, f, cause)
  {
    hide Unsigned, Delegated, LowestPending, Pow2;
    AllOnes();
    SmallNumbers();
    CauseNumbers(cause);
    held := if cause.IsInterrupt() then ZERO else Word(0xffff_ffff_ffff_ffff);
  }

  /**
   * Whatever the cause registers held, the level that handles a trap finds the cause in its own, exactly if that
   * level is S or the trap came from M; a trap from a lower level into M leaves mcause as it was.
   */
  lemma CauseInPlaceIff(env: Env, c: Control, w: MemoryInterstage)
    requires Delivered(env, w.excause)
    ensures (forall held :: CauseInPlace(env, c, HandleException(env, Holding(c, held), w).0.csrs, w.excause))
            <==> Delegated(c, w.excause) || c.privilege == Machine
  {
    hide HandleException, ShowsInterrupt, Delegated, Unsigned, HasBit, StatusOf, Holding;
    var cause := w.excause;
    if Delegated(c, cause) || c.privilege == Machine {
      forall held
        ensures CauseInPlace(env, c, HandleException(env, Holding(c, held), w).0.csrs, cause)
      {
        FoundCause(env, c, w, held);
      }
    } else {
      var held := NeverShown(env, c, cause);
      KeptCause(env, c, w, held);
      assert !CauseInPlace(env, c, HandleException(env, Holding(c, held), w).0.csrs, cause);
    }
  }

  lemma FoundCause(env: Env, c: Control, w: MemoryInterstage, held: Word)
    requires Delivered(env, w.excause) && (Delegated(c, w.excause) || c.privilege == Machine)
    ensures CauseInPlace(env, c, HandleException(env, Holding(c, held), w).0.csrs, w.excause)
  {
    hide HandleException, ShowsInterrupt, Unsigned, HasBit, StatusOf, Holding, Holds;
    var cause, d := w.excause, Holding(c, held);
    var f := HandleException(env, d, w).0.csrs;
    DeliveryMeaning(env, d, w);
    HoldingSame(env, c, held, cause, f[CauseRegister(c, Delegated(c, cause))]);
  }

  lemma KeptCause(env: Env, c: Control, w: MemoryInterstage, held: Word)
    requires Delivered(env, w.excause) && !Delegated(c, w.excause) && c.privilege != Machine
    ensures HandleException(env, Holding(c, held), w).0.csrs[MCAUSE] == held
  {
    hide HandleException, ShowsInterrupt, Unsigned, HasBit, StatusOf, Delegated, ShowsCause, Holds;
    DeliveryMeaning(env, Holding(c, held), w);
    HoldingSame(env, c, held, w.excause, ZERO);
  }

  const CALL := Instruction(Ecall, 0, 0, 0, ZERO, 0)

  /** A state at user level with all registers, CSRs and bytes zero. */
  function UserState(env: Env, pc: Word): ArchState {
    ArchState(pc, seq(32, _ => ZERO), _ => 0,
              Control(seq(COUNT, _ => ZERO), Unprivileged, MaskFor(env, Unprivileged), EMPTY_RANGE))
  }

  lemma UserQuiet(env: Env, pc: Word)
    requires env.program(pc, Unprivileged, ZERO) == Fetched(CALL, NoException)
    ensures MaskOk(env, UserState(env, pc).control)
    ensures FetchedAt(env, UserState(env, pc).control, pc) == Fetched(CALL, NoException)
  {
    hide MaskFor;
  }

  lemma CallCause(env: Env, s: ArchState)
    requires MaskOk(env, s.control) && FetchedAt(env, s.control, s.pc) == Fetched(CALL, NoException)
    requires s.control.privilege == Unprivileged
    ensures StepCause(env, s) == EcallU
  {
    hide MaskOk, FetchedAt, SignalsOf, DataAccess, ControlAfter, ReturnAddress, WritebackValue, ComputedNextInstAddr,
      DecodedCause, AluResult;
    CauseMeaning(env, s.control, CALL, NoException);
  }

  /** The failing input: ecall in U with all CSRs zero leaves its address in mepc, but 8 in scause and 0 in mcause. */
  lemma UserCallMisplaced(env: Env, pc: Word, predicted: Word)
    requires env.program(pc, Unprivileged, ZERO) == Fetched(CALL, NoException)
    ensures
      var f := SingleStep(env, UserState(env, pc), predicted).control.csrs;
      && f[MCAUSE] == ZERO && Unsigned(f[SCAUSE].bits) == 8
      && Unsigned(f[MEPC].bits) == Unsigned(pc.bits) % Pow2(XlenBits(env.xlen))
  {
    hide SingleStep, StepCause, BitOf, Unsigned, StatusOf, SingleExecute, ComputedNextInstAddr, MaskOk, FetchedAt;
    var s := UserState(env, pc);
    UserQuiet(env, pc);
    CallCause(env, s);
    SmallNumbers();
    NoBits(8);
    TrapStep(env, s, predicted);
  }
}
