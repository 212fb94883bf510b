/** The privilege and interrupt-enable stack in mstatus, and its second copy in sstatus. */
module StatusStack {
  import opened Words
  import opened BitFields
  import opened MachineDefs
  import opened CsrFunctions

  // ---------------------------------------------------------------- aliasing

  /** SIE, SPIE, SPP, SUM and MXR. */
  const SHARED_BITS: bv64 := 0xC0122

  /** sstatus shows the shared bits of mstatus, on RV32 nothing else, and cycle shows mcycle. */
  predicate Aliased(xlen: Xlen, f: CsrFile) {
    && Select(SHARED_BITS, f[SSTATUS].bits) == Select(SHARED_BITS, f[MSTATUS].bits)
    && (xlen == Xlen32 ==> f[SSTATUS].bits == Select(SHARED_BITS, f[MSTATUS].bits))
    && f[CYCLE] == f[MCYCLE]
  }

  lemma SharedMaskIs(xlen: Xlen)
    ensures SharedMask(xlen) == if xlen == Xlen32 then SHARED_BITS else 0xF_000C_0122
  {
  }

  lemma ShownBits(m: bv64)
    ensures (m & 0xF_000C_0122) & 0xC0122 == m & 0xC0122
    ensures (m & 0xC0122) & 0xC0122 == m & 0xC0122
    ensures (m & 0xC0122) & 0xffff_ffff == m & 0xC0122
  {
  }

  /** What a write to either status register leaves: sstatus is the view of the new mstatus. */
  lemma ShowsShared(xlen: Xlen, m: bv64)
    ensures Select(SHARED_BITS, Shown(xlen, m)) == Select(SHARED_BITS, m)
    ensures xlen == Xlen32 ==> Shown(xlen, m) == Select(SHARED_BITS, m)
  {
    hide SharedMask;
    SharedMaskIs(xlen);
    ShownBits(m);
  }

  lemma WriteKeepsAlias(xlen: Xlen, f: CsrFile, id: CsrId, val: Word)
    requires Aliased(xlen, f) && Writable(id)
    ensures Aliased(xlen, WriteInternal(xlen, f, id, val))
  {
    hide Select, Masked, Merged, Shown, SharedMask, TruncateBits, WriteMask, ValidSatpMode;
    if id == MSTATUS {
      ShowsShared(xlen, DefaultWrite(xlen, WriteMask(MSTATUS), f[MSTATUS], val).bits);
    } else if id == SSTATUS {
      ShowsShared(xlen, Merged(xlen, f[MSTATUS].bits, val.bits));
    }
  }

  /** The fields that have descriptors. */
  type StatusField = d: Field | d.reg in {MSTATUS, SSTATUS, SATP} && d.bits.Fits(64) witness MSTATUS_SIE

  lemma FieldKeepsAlias(xlen: Xlen, f: CsrFile, field: StatusField, val: bv64)
    requires Aliased(xlen, f)
    ensures Aliased(xlen, WriteField(xlen, f, field, val))
  {
    hide Aliased, WriteInternal;
    WriteKeepsAlias(xlen, f, field.reg, Word(field.Update(f[field.reg].bits, val)));
  }

  lemma InitiateKeepsAlias(xlen: Xlen, f: CsrFile, act: Privilege, to: Privilege)
    requires Aliased(xlen, f)
    ensures Aliased(xlen, ExceptionInitiate(xlen, f, act, to))
  {
    hide Aliased, WriteField, ReadField;
    if to == Machine {
      var f1 := WriteField(xlen, f, MSTATUS_MPIE, ReadField(f, MSTATUS_MIE));
      FieldKeepsAlias(xlen, f, MSTATUS_MPIE, ReadField(f, MSTATUS_MIE));
      FieldKeepsAlias(xlen, f1, MSTATUS_MIE, 0);
      FieldKeepsAlias(xlen, WriteField(xlen, f1, MSTATUS_MIE, 0), MSTATUS_MPP, PrivilegeBits(act));
    } else {
      var f1 := WriteField(xlen, f, SSTATUS_SPIE, ReadField(f, SSTATUS_SIE));
      FieldKeepsAlias(xlen, f, SSTATUS_SPIE, ReadField(f, SSTATUS_SIE));
      FieldKeepsAlias(xlen, f1, SSTATUS_SIE, 0);
      FieldKeepsAlias(xlen, WriteField(xlen, f1, SSTATUS_SIE, 0), SSTATUS_SPP, if act == Supervisor then 1 else 0);
    }
  }

  lemma ReturnKeepsAlias(xlen: Xlen, f: CsrFile, act: Privilege, xret: Privilege)
    requires Aliased(xlen, f)
    ensures Aliased(xlen, ExceptionReturn(xlen, f, act, xret).0)
  {
    hide Aliased, WriteField, ReadField;
    var last := f;
    if xret == Machine {
      var f1 := WriteField(xlen, f, MSTATUS_MIE, ReadField(f, MSTATUS_MPIE));
      var f2 := WriteField(xlen, f1, MSTATUS_MPIE, 1);
      FieldKeepsAlias(xlen, f, MSTATUS_MIE, ReadField(f, MSTATUS_MPIE));
      FieldKeepsAlias(xlen, f1, MSTATUS_MPIE, 1);
      FieldKeepsAlias(xlen, f2, MSTATUS_MPP, 0);
      last := WriteField(xlen, f2, MSTATUS_MPP, 0);
    } else if xret == Supervisor {
      var f1 := WriteField(xlen, f, MSTATUS_SIE, ReadField(f, MSTATUS_SPIE));
      var f2 := WriteField(xlen, f1, MSTATUS_SPIE, 1);
      FieldKeepsAlias(xlen, f, MSTATUS_SIE, ReadField(f, MSTATUS_SPIE));
      FieldKeepsAlias(xlen, f1, MSTATUS_SPIE, 1);
      FieldKeepsAlias(xlen, f2, MSTATUS_SPP, 0);
      last := WriteField(xlen, f2, MSTATUS_SPP, 0);
    }
    FieldKeepsAlias(xlen, last, MSTATUS_MPRV, 0);
  }

  /** Everything that changes the CSR file after reset. */
  datatype CsrOp =
    | WriteCsr(id: CsrId, val: Word)
    | WriteStatus(field: StatusField, bits: bv64)
    | Enter(act: Privilege, to: Privilege)
    | Leave(act: Privilege, xret: Privilege)
    | RecordCause(cause: ExceptionCause, level: Privilege)
    | SignalInterrupt(irq: nat, active: bool)
    | Count(amount: bv64, cycles: bool)

  function Apply(xlen: Xlen, f: CsrFile, op: CsrOp): CsrFile {
    match op
    case WriteCsr(id, val) => Write(xlen, f, id, val)
    case WriteStatus(field, bits) => WriteField(xlen, f, field, bits)
    case Enter(act, to) => ExceptionInitiate(xlen, f, act, to)
    case Leave(act, xret) => ExceptionReturn(xlen, f, act, xret).0
    case RecordCause(cause, level) => UpdateExceptionCause(xlen, f, cause, level)
    case SignalInterrupt(irq, active) => SetInterruptSignal(f, irq, active)
    case Count(amount, cycles) =>
      var id: CsrId := if cycles then MCYCLE else MINSTRET;
      WriteInternal(xlen, f, id, Offset(f[id], amount))
  }

  lemma ApplyKeepsAlias(xlen: Xlen, f: CsrFile, op: CsrOp)
    requires Aliased(xlen, f)
    ensures Aliased(xlen, Apply(xlen, f, op))
  {
    hide WriteInternal, WriteField, ExceptionInitiate, ExceptionReturn, Select, InterruptCause, Masked;
    match op
    case WriteCsr(id, val) => if Writable(id) { WriteKeepsAlias(xlen, f, id, val); }
    case WriteStatus(field, bits) => FieldKeepsAlias(xlen, f, field, bits);
    case Enter(act, to) => InitiateKeepsAlias(xlen, f, act, to);
    case Leave(act, xret) => ReturnKeepsAlias(xlen, f, act, xret);
    case RecordCause(cause, level) =>
    case SignalInterrupt(irq, active) =>
    case Count(amount, cycles) =>
      var id: CsrId := if cycles then MCYCLE else MINSTRET;
      WriteKeepsAlias(xlen, f, id, Offset(f[id], amount));
  }

  function ApplyAll(xlen: Xlen, f: CsrFile, ops: seq<CsrOp>): CsrFile {
    if ops == [] then f else Apply(xlen, ApplyAll(xlen, f, ops[..|ops| - 1]), ops[|ops| - 1])
  }

  /** The register file as reset leaves it: zero, but for misa and, on RV64, the XLEN fields of mstatus. */
  function ResetFile(xlen: Xlen): CsrFile {
    var zeros: CsrFile := seq(COUNT, _ => ZERO);
    match xlen
    case Xlen32 => zeros[MISA := Word(0x4000_0000)]
    case Xlen64 =>
      var uxl := MSTATUS_UXL.Update(0, 2);
      zeros[MISA := Word(0x8000_0000_0000_0000)][MSTATUS := Word(MSTATUS_SXL.Update(uxl, 2))]
  }

  lemma ResetAliased(xlen: Xlen)
    ensures Aliased(xlen, ResetFile(xlen))
  {
  }

  /** After reset and any sequence of operations the two copies agree. */
  lemma {:induction false} AliasOverRuns(xlen: Xlen, ops: seq<CsrOp>)
    ensures Aliased(xlen, ApplyAll(xlen, ResetFile(xlen), ops))
  {
    hide Aliased, Apply, ResetFile;
    if ops == [] {
      ResetAliased(xlen);
    } else {
      AliasOverRuns(xlen, ops[..|ops| - 1]);
      ApplyKeepsAlias(xlen, ApplyAll(xlen, ResetFile(xlen), ops[..|ops| - 1]), ops[|ops| - 1]);
    }
  }

  // ---------------------------------------------------------------- the stack

  /** The bits of mstatus that trap entry and return move. */
  datatype Status = Status(sie: bool, spie: bool, spp: bool, mie: bool, mpie: bool, mpp: Privilege, mprv: bool)

  function StatusOf(m: bv64): Status {
    Status(m & 0x2 != 0, m & 0x20 != 0, m & 0x100 != 0, m & 0x8 != 0, m & 0x80 != 0, PrivilegeOfBits((m >> 11) & 3),
           m & 0x2_0000 != 0)
  }

  lemma WriteMie(xlen: Xlen, f: CsrFile, v: bv64)
    requires v == 0 || v == 1
    ensures StatusOf(WriteField(xlen, f, MSTATUS_MIE, v)[MSTATUS].bits) == StatusOf(f[MSTATUS].bits).(mie := v == 1)
  {
  }

  lemma WriteMpie(xlen: Xlen, f: CsrFile, v: bv64)
    requires v == 0 || v == 1
    ensures StatusOf(WriteField(xlen, f, MSTATUS_MPIE, v)[MSTATUS].bits) == StatusOf(f[MSTATUS].bits).(mpie := v == 1)
  {
  }

  lemma WriteSie(xlen: Xlen, f: CsrFile, v: bv64)
    requires v == 0 || v == 1
    ensures StatusOf(WriteField(xlen, f, MSTATUS_SIE, v)[MSTATUS].bits) == StatusOf(f[MSTATUS].bits).(sie := v == 1)
  {
  }

  lemma WriteSpie(xlen: Xlen, f: CsrFile, v: bv64)
    requires v == 0 || v == 1
    ensures StatusOf(WriteField(xlen, f, MSTATUS_SPIE, v)[MSTATUS].bits) == StatusOf(f[MSTATUS].bits).(spie := v == 1)
  {
  }

  lemma WriteSpp(xlen: Xlen, f: CsrFile, v: bv64)
    requires v == 0 || v == 1
    ensures StatusOf(WriteField(xlen, f, MSTATUS_SPP, v)[MSTATUS].bits) == StatusOf(f[MSTATUS].bits).(spp := v == 1)
  {
  }

  lemma WriteMpp(xlen: Xlen, f: CsrFile, p: Privilege)
    ensures StatusOf(WriteField(xlen, f, MSTATUS_MPP, PrivilegeBits(p))[MSTATUS].bits)
            == StatusOf(f[MSTATUS].bits).(mpp := p)
  {
  }

  lemma ClearMprv(xlen: Xlen, f: CsrFile)
    ensures StatusOf(WriteField(xlen, f, MSTATUS_MPRV, 0)[MSTATUS].bits) == StatusOf(f[MSTATUS].bits).(mprv := false)
  {
  }

  /** What a value written to sstatus does to mstatus. */
  lemma ShownStatus(xlen: Xlen, m: bv64, x: bv64)
    ensures StatusOf(Merged(xlen, m, x))
            == StatusOf(m).(sie := x & 0x2 != 0, spie := x & 0x20 != 0, spp := x & 0x100 != 0)
  {
  }

  lemma AliasedBits(xlen: Xlen, f: CsrFile)
    requires Aliased(xlen, f)
    ensures
      var s, m := f[SSTATUS].bits, f[MSTATUS].bits;
      s & 0x2 == m & 0x2 && s & 0x20 == m & 0x20 && s & 0x100 == m & 0x100
  {
    SameSharedBits(f[SSTATUS].bits, f[MSTATUS].bits);
  }

  lemma SameSharedBits(s: bv64, m: bv64)
    ensures s & 0xC0122 == m & 0xC0122 ==> s & 0x2 == m & 0x2 && s & 0x20 == m & 0x20 && s & 0x100 == m & 0x100
  {
  }

  lemma UpdateSie(s: bv64, v: bv64)
    ensures
      var x := SSTATUS_SIE.Update(s, v);
      && x & 0x20 == s & 0x20 && x & 0x100 == s & 0x100
      && (v == 0 ==> x & 0x2 == 0) && (v == 1 ==> x & 0x2 != 0)
  {
  }

  lemma WriteShownSie(xlen: Xlen, f: CsrFile, v: bv64)
    requires Aliased(xlen, f) && (v == 0 || v == 1)
    ensures StatusOf(WriteField(xlen, f, SSTATUS_SIE, v)[MSTATUS].bits) == StatusOf(f[MSTATUS].bits).(sie := v == 1)
  {
    hide Aliased, Merged, Shown;
    AliasedBits(xlen, f);
    UpdateSie(f[SSTATUS].bits, v);
    ShownStatus(xlen, f[MSTATUS].bits, SSTATUS_SIE.Update(f[SSTATUS].bits, v));
  }

  lemma UpdateSpie(s: bv64, v: bv64)
    ensures
      var x := SSTATUS_SPIE.Update(s, v);
      && x & 0x2 == s & 0x2 && x & 0x100 == s & 0x100
      && (v == 0 ==> x & 0x20 == 0) && (v == 1 ==> x & 0x20 != 0)
  {
  }

  lemma WriteShownSpie(xlen: Xlen, f: CsrFile, v: bv64)
    requires Aliased(xlen, f) && (v == 0 || v == 1)
    ensures StatusOf(WriteField(xlen, f, SSTATUS_SPIE, v)[MSTATUS].bits) == StatusOf(f[MSTATUS].bits).(spie := v == 1)
  {
    hide Aliased, Merged, Shown;
    AliasedBits(xlen, f);
    UpdateSpie(f[SSTATUS].bits, v);
    ShownStatus(xlen, f[MSTATUS].bits, SSTATUS_SPIE.Update(f[SSTATUS].bits, v));
  }

  lemma UpdateSpp(s: bv64, v: bv64)
    ensures
      var x := SSTATUS_SPP.Update(s, v);
      && x & 0x2 == s & 0x2 && x & 0x20 == s & 0x20
      && (v == 0 ==> x & 0x100 == 0) && (v == 1 ==> x & 0x100 != 0)
  {
  }

  lemma WriteShownSpp(xlen: Xlen, f: CsrFile, v: bv64)
    requires Aliased(xlen, f) && (v == 0 || v == 1)
    ensures StatusOf(WriteField(xlen, f, SSTATUS_SPP, v)[MSTATUS].bits) == StatusOf(f[MSTATUS].bits).(spp := v == 1)
  {
    hide Aliased, Merged, Shown;
    AliasedBits(xlen, f);
    UpdateSpp(f[SSTATUS].bits, v);
    ShownStatus(xlen, f[MSTATUS].bits, SSTATUS_SPP.Update(f[SSTATUS].bits, v));
  }

  function Bit(b: bool): bv64 {
    if b then 1 else 0
  }

  lemma ReadMie(f: CsrFile)
    ensures ReadField(f, MSTATUS_MIE) == Bit(StatusOf(f[MSTATUS].bits).mie)
  {
  }

  lemma ReadMpie(f: CsrFile)
    ensures ReadField(f, MSTATUS_MPIE) == Bit(StatusOf(f[MSTATUS].bits).mpie)
  {
  }

  lemma ReadSpie(f: CsrFile)
    ensures ReadField(f, MSTATUS_SPIE) == Bit(StatusOf(f[MSTATUS].bits).spie)
  {
  }

  lemma ReadSpp(f: CsrFile)
    ensures Select(1, ReadField(f, MSTATUS_SPP)) == Bit(StatusOf(f[MSTATUS].bits).spp)
  {
  }

  lemma ReadMpp(f: CsrFile)
    ensures PrivilegeOfBits(Select(3, ReadField(f, MSTATUS_MPP))) == StatusOf(f[MSTATUS].bits).mpp
  {
  }

  lemma ReadShownSie(xlen: Xlen, f: CsrFile)
    requires Aliased(xlen, f)
    ensures ReadField(f, SSTATUS_SIE) == Bit(StatusOf(f[MSTATUS].bits).sie)
  {
  }

  function Stack(f: CsrFile): Status {
    StatusOf(f[MSTATUS].bits)
  }

  /** Entry to M pushes MIE and the interrupted level. */
  lemma EnterMachine(xlen: Xlen, f: CsrFile, act: Privilege)
    ensures Stack(ExceptionInitiate(xlen, f, act, Machine)) == Stack(f).(mpie := Stack(f).mie, mie := false, mpp := act)
  {
    hide WriteField, ReadField, StatusOf, PrivilegeBits;
    var f1 := WriteField(xlen, f, MSTATUS_MPIE, ReadField(f, MSTATUS_MIE));
    var f2 := WriteField(xlen, f1, MSTATUS_MIE, 0);
    ReadMie(f);
    WriteMpie(xlen, f, ReadField(f, MSTATUS_MIE));
    WriteMie(xlen, f1, 0);
    WriteMpp(xlen, f2, act);
  }

  lemma MachinePops(xlen: Xlen, f: CsrFile)
    ensures
      var st, (f', restored) := Stack(f), PopMachine(xlen, f);
      restored == st.mpp && Stack(f') == st.(mie := st.mpie, mpie := true, mpp := Unprivileged)
  {
    hide WriteField, ReadField, StatusOf, PrivilegeOfBits, Select;
    var f1 := WriteField(xlen, f, MSTATUS_MIE, ReadField(f, MSTATUS_MPIE));
    var f2 := WriteField(xlen, f1, MSTATUS_MPIE, 1);
    ReadMpie(f);
    WriteMie(xlen, f, ReadField(f, MSTATUS_MPIE));
    WriteMpie(xlen, f1, 1);
    ReadMpp(f2);
    WriteMpp(xlen, f2, Unprivileged);
  }

  /** MRET pops them. */
  lemma LeaveMachine(xlen: Xlen, f: CsrFile, act: Privilege)
    ensures
      var st, (f', restored) := Stack(f), ExceptionReturn(xlen, f, act, Machine);
      && restored == st.mpp
      && Stack(f') == st.(mie := st.mpie, mpie := true, mpp := Unprivileged,
                          mprv := st.mprv && (act != Machine || st.mpp == Machine))
  {
    hide WriteField, StatusOf, PopMachine;
    MachinePops(xlen, f);
    ClearMprv(xlen, PopMachine(xlen, f).0);
  }

  /** Entry to S pushes SIE and the interrupted level, through the sstatus copy. */
  lemma EnterSupervisor(xlen: Xlen, f: CsrFile, act: Privilege)
    requires Aliased(xlen, f)
    ensures Stack(ExceptionInitiate(xlen, f, act, Supervisor))
            == Stack(f).(spie := Stack(f).sie, sie := false, spp := act == Supervisor)
  {
    hide WriteField, ReadField, StatusOf, Aliased;
    var f1 := WriteField(xlen, f, SSTATUS_SPIE, ReadField(f, SSTATUS_SIE));
    var f2 := WriteField(xlen, f1, SSTATUS_SIE, 0);
    ReadShownSie(xlen, f);
    WriteShownSpie(xlen, f, ReadField(f, SSTATUS_SIE));
    FieldKeepsAlias(xlen, f, SSTATUS_SPIE, ReadField(f, SSTATUS_SIE));
    WriteShownSie(xlen, f1, 0);
    FieldKeepsAlias(xlen, f1, SSTATUS_SIE, 0);
    WriteShownSpp(xlen, f2, Bit(act == Supervisor));
  }

  lemma SupervisorPops(xlen: Xlen, f: CsrFile)
    ensures
      var st, (f', restored) := Stack(f), PopSupervisor(xlen, f);
      && restored == (if st.spp then Supervisor else Unprivileged)
      && Stack(f') == st.(sie := st.spie, spie := true, spp := false)
  {
    hide WriteField, ReadField, StatusOf, Select;
    var f1 := WriteField(xlen, f, MSTATUS_SIE, ReadField(f, MSTATUS_SPIE));
    var f2 := WriteField(xlen, f1, MSTATUS_SPIE, 1);
    ReadSpie(f);
    WriteSie(xlen, f, ReadField(f, MSTATUS_SPIE));
    WriteSpie(xlen, f1, 1);
    ReadSpp(f2);
    WriteSpp(xlen, f2, 0);
  }

  /** SRET pops them, through mstatus. */
  lemma LeaveSupervisor(xlen: Xlen, f: CsrFile, act: Privilege)
    ensures
      var st, (f', restored) := Stack(f), ExceptionReturn(xlen, f, act, Supervisor);
      && restored == (if st.spp then Supervisor else Unprivileged)
      && Stack(f') == st.(sie := st.spie, spie := true, spp := false, mprv := st.mprv && act != Machine)
  {
    hide WriteField, StatusOf, PopSupervisor;
    SupervisorPops(xlen, f);
    ClearMprv(xlen, PopSupervisor(xlen, f).0);
  }

  /** A trap to M and its return, from any level: the level and MIE come back, the supervisor's part is untouched. */
  lemma MachineRoundTrip(xlen: Xlen, f: CsrFile, origin: Privilege)
    ensures
      var (f', restored) := ExceptionReturn(xlen, ExceptionInitiate(xlen, f, origin, Machine), Machine, Machine);
      && restored == origin && Stack(f').mie == Stack(f).mie
      && Stack(f').sie == Stack(f).sie && Stack(f').spie == Stack(f).spie && Stack(f').spp == Stack(f).spp
  {
    hide ExceptionInitiate, ExceptionReturn, StatusOf;
    EnterMachine(xlen, f, origin);
    LeaveMachine(xlen, ExceptionInitiate(xlen, f, origin, Machine), Machine);
  }

  /**
   * A trap to S, a trap to M inside it if `nested`, MRET and SRET: the levels come back in order and
   * so do MIE and SIE.
   */
  lemma NestedRoundTrip(xlen: Xlen, f: CsrFile, origin: Privilege, nested: bool)
    requires Aliased(xlen, f) && (origin == Supervisor || origin == Unprivileged)
    ensures
      var inS := ExceptionInitiate(xlen, f, origin, Supervisor);
      var (back, level) :=
        if nested then ExceptionReturn(xlen, ExceptionInitiate(xlen, inS, Supervisor, Machine), Machine, Machine)
        else (inS, Supervisor);
      var (f', restored) := ExceptionReturn(xlen, back, level, Supervisor);
      && level == Supervisor && restored == origin
      && Stack(f').sie == Stack(f).sie && Stack(f').mie == Stack(f).mie
  {
    hide ExceptionInitiate, ExceptionReturn, StatusOf, Aliased;
    var inS := ExceptionInitiate(xlen, f, origin, Supervisor);
    EnterSupervisor(xlen, f, origin);
    MachineRoundTrip(xlen, inS, Supervisor);
    var back := if nested
      then ExceptionReturn(xlen, ExceptionInitiate(xlen, inS, Supervisor, Machine), Machine, Machine).0 else inS;
    LeaveSupervisor(xlen, back, Supervisor);
  }

  /** On RV64 a write to sstatus, and so every trap to S, zeroes the XLEN fields that reset set in mstatus. */
  lemma SstatusWriteClearsXlenFields(f: CsrFile, val: Word)
    ensures
      var f' := WriteInternal(Xlen64, f, SSTATUS, val);
      ReadField(f', MSTATUS_UXL) == 0 && ReadField(f', MSTATUS_SXL) == 0
  {
  }
}
