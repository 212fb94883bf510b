/** The CSR file: stored registers, write handlers, trap entry and trap return. */
module CsrFunctions {
  import opened Words
  import opened BitFields
  import opened MachineDefs

  datatype Privilege = Unprivileged | Supervisor | Hypervisor | Machine {
    function Level(): nat {
      match this
      case Unprivileged => 0
      case Supervisor => 1
      case Hypervisor => 2
      case Machine => 3
    }
  }

  type CsrId = i: nat | i < COUNT witness 0
  const COUNT := 36
  const CYCLE: CsrId := 0
  const TIME: CsrId := 1
  const STIMECMP: CsrId := 2
  const MVENDORID: CsrId := 3
  const MARCHID: CsrId := 4
  const MIMPID: CsrId := 5
  const MHARTID: CsrId := 6
  const MSTATUS: CsrId := 7
  const MISA: CsrId := 8
  const MEDELEG: CsrId := 9
  const MIDELEG: CsrId := 10
  const MIE: CsrId := 11
  const MTVEC: CsrId := 12
  const MCOUNTERN: CsrId := 13
  const MSCRATCH: CsrId := 14
  const MEPC: CsrId := 15
  const MCAUSE: CsrId := 16
  const MTVAL: CsrId := 17
  const MIP: CsrId := 18
  const MENVCFG: CsrId := 21
  const MENVCFGH: CsrId := 22
  const PMPCFG0: CsrId := 23
  const PMPADDR0: CsrId := 24
  const MCYCLE: CsrId := 25
  const MINSTRET: CsrId := 26
  const SSTATUS: CsrId := 27
  const SIE: CsrId := 28
  const STVEC: CsrId := 29
  const SEPC: CsrId := 31
  const SCAUSE: CsrId := 32
  const STVAL: CsrId := 33
  const SIP: CsrId := 34
  const SATP: CsrId := 35

  type CsrFile = f: seq<Word> | |f| == COUNT witness seq(COUNT, _ => ZERO)

  function WriteMask(id: CsrId): bv64 {
    if id in {CYCLE, TIME, MVENDORID, MARCHID, MIMPID, MISA} then 0
    else if id in {STIMECMP, MIDELEG, MCOUNTERN, MENVCFG, MENVCFGH, PMPCFG0, SSTATUS, SATP} then 0xffff_ffff
    else if id == MSTATUS then 0x007F_FFEA
    else if id == MEDELEG then 0xfffe_f7ff
    else if id == MIE then 0x00ff_0AAA
    else if id == MIP then 0x0000_0222
    else if id == PMPADDR0 then 0xFFFF_FFFC
    else if id in {SIE, SIP} then 0x0001_0222
    else 0xffff_ffff_ffff_ffff
  }

  /** A named field of a register. */
  datatype Field = Field(reg: CsrId, bits: BitField) {
    function Mask(): bv64
      requires bits.Fits(64)
    {
      bits.Mask()
    }

    function Update(orig: bv64, val: bv64): bv64
      requires bits.Fits(64)
    {
      bits.Encode64(val) | (orig & !Mask())
    }
  }

  const MSTATUS_SIE := Field(MSTATUS, BitField(1, 1))
  const MSTATUS_MIE := Field(MSTATUS, BitField(1, 3))
  const MSTATUS_SPIE := Field(MSTATUS, BitField(1, 5))
  const MSTATUS_MPIE := Field(MSTATUS, BitField(1, 7))
  const MSTATUS_SPP := Field(MSTATUS, BitField(1, 8))
  const MSTATUS_MPP := Field(MSTATUS, BitField(2, 11))
  const MSTATUS_MPRV := Field(MSTATUS, BitField(1, 17))
  const MSTATUS_SUM := Field(MSTATUS, BitField(1, 18))
  const MSTATUS_MXR := Field(MSTATUS, BitField(1, 19))
  const MSTATUS_UXL := Field(MSTATUS, BitField(2, 32))
  const MSTATUS_SXL := Field(MSTATUS, BitField(2, 34))
  const SSTATUS_SIE := Field(SSTATUS, BitField(1, 1))
  const SSTATUS_SPIE := Field(SSTATUS, BitField(1, 5))
  const SSTATUS_SPP := Field(SSTATUS, BitField(1, 8))

  /** The mstatus bits that sstatus shows. */
  function SharedMask(xlen: Xlen): bv64 {
    var common :=
      MSTATUS_SIE.Mask() | MSTATUS_SPIE.Mask() | MSTATUS_SPP.Mask() | MSTATUS_SUM.Mask() | MSTATUS_MXR.Mask();
    match xlen
    case Xlen32 => common
    case Xlen64 => common | MSTATUS_UXL.Mask() | MSTATUS_SXL.Mask()
  }

  /** The bits of `val` that `mask` admits, the others from `reg`. */
  function Masked(mask: bv64, reg: bv64, val: bv64): bv64 {
    (val & mask) | (reg & !mask)
  }

  function Select(mask: bv64, val: bv64): bv64 {
    val & mask
  }

  function DefaultWrite(xlen: Xlen, mask: bv64, reg: Word, val: Word): Word {
    Word(TruncateBits(xlen, Masked(mask, reg.bits, val.bits)))
  }

  function MstatusWrite(xlen: Xlen, f: CsrFile, val: Word): CsrFile {
    var mstatus := DefaultWrite(xlen, WriteMask(MSTATUS), f[MSTATUS], val);
    f[MSTATUS := mstatus][SSTATUS := Word(Shown(xlen, mstatus.bits))]
  }

  /** mstatus with its shared bits taken from a value written to sstatus. */
  function Merged(xlen: Xlen, mstatus: bv64, val: bv64): bv64 {
    Masked(SharedMask(xlen), mstatus, Select(WriteMask(SSTATUS), val))
  }

  function Shown(xlen: Xlen, mstatus: bv64): bv64 {
    TruncateBits(xlen, Select(SharedMask(xlen), mstatus))
  }

  function SstatusWrite(xlen: Xlen, f: CsrFile, val: Word): CsrFile {
    var mstatus := Merged(xlen, f[MSTATUS].bits, val.bits);
    f[MSTATUS := Word(mstatus)][SSTATUS := Word(Shown(xlen, mstatus))]
  }

  predicate ValidSatpMode(val: bv64) {
    var mode := val >> 60;
    mode == 0 || mode == 8 || mode == 9
  }

  function SatpWrite(xlen: Xlen, f: CsrFile, val: Word): CsrFile {
    match xlen
    case Xlen32 => f[SATP := Truncate(Xlen32, val)]
    case Xlen64 => f[SATP := if ValidSatpMode(val.bits) then val else Word(Select(0x0fff_ffff_ffff_ffff, val.bits))]
  }

  /** A write by internal id goes through the write handler of the register. */
  function WriteInternal(xlen: Xlen, f: CsrFile, id: CsrId, val: Word): CsrFile {
    if id == MSTATUS then MstatusWrite(xlen, f, val)
    else if id == SSTATUS then SstatusWrite(xlen, f, val)
    else if id == SATP then SatpWrite(xlen, f, val)
    else if id == MCYCLE then f[MCYCLE := val][CYCLE := val]
    else f[id := DefaultWrite(xlen, WriteMask(id), f[id], val)]
  }

  /** Registers whose address admits writes. */
  predicate Writable(id: CsrId) {
    id !in {CYCLE, TIME, MVENDORID, MARCHID, MIMPID, MHARTID}
  }

  /** A write by an instruction; one to a read-only register is refused. */
  function Write(xlen: Xlen, f: CsrFile, id: CsrId, val: Word): CsrFile {
    if Writable(id) then WriteInternal(xlen, f, id, val) else f
  }

  function ReadField(f: CsrFile, field: Field): bv64
    requires field.bits.Fits(64)
  {
    field.bits.Decode64(f[field.reg].bits)
  }

  function WriteField(xlen: Xlen, f: CsrFile, field: Field, val: bv64): CsrFile
    requires field.bits.Fits(64)
  {
    WriteInternal(xlen, f, field.reg, Word(field.Update(f[field.reg].bits, val)))
  }

  /** Index of the least significant set bit at or above `from`, or 0 when there is none below 32. */
  function LowestSetBit(v: bv64, from: bv6): bv64
    decreases 32 - from as int
  {
    if from >= 32 then 0
    else if (v >> from) & 1 == 1 then from as bv64
    else LowestSetBit(v, from + 1)
  }

  /** The number of an interrupt with the bit that tells it from an exception. */
  function Flagged(xlen: Xlen, irq: bv64): bv64 {
    match xlen
    case Xlen32 => irq | 0x8000_0000
    case Xlen64 => irq | 0x8000_0000_0000_0000
  }

  /** The cause recorded for the lowest pending interrupt. */
  function InterruptCause(xlen: Xlen, enabled: Word, pending: Word): Word {
    Word(Flagged(xlen, LowestSetBit(Select(enabled.bits, pending.bits), 0)))
  }

  function UpdateExceptionCause(xlen: Xlen, f: CsrFile, cause: ExceptionCause, to: Privilege): CsrFile {
    f[if to == Machine then MCAUSE else SCAUSE :=
        if !cause.IsInterrupt() then Word(cause.Code())
        else if to == Supervisor then InterruptCause(xlen, f[SIE], f[SIP])
        else InterruptCause(xlen, f[MIE], f[MIP])]
  }

  function SetInterruptSignal(f: CsrFile, irq: nat, active: bool): CsrFile {
    if irq >= 32 then f
    else
      var mask := ShiftedLeft(1, irq as bv6);
      var mip := Masked(mask, f[MIP].bits, if active then mask else 0);
      f[MIP := Word(mip)][SIP := Word(Select(f[MIDELEG].bits, mip))]
  }

  function CoreInterruptRequest(f: CsrFile, current: Privilege): ExceptionCause {
    if Select(f[MIE].bits, f[MIP].bits) != 0 && (current.Level() < Machine.Level() || ReadField(f, MSTATUS_MIE) != 0)
    then InterruptM
    else if Select(f[SIE].bits, f[SIP].bits) != 0
            && (current.Level() < Supervisor.Level() || (current == Supervisor && ReadField(f, MSTATUS_SIE) != 0))
    then InterruptS
    else NoException
  }

  function PrivilegeBits(p: Privilege): bv64 {
    match p
    case Unprivileged => 0
    case Supervisor => 1
    case Hypervisor => 2
    case Machine => 3
  }

  function PrivilegeOfBits(raw: bv64): Privilege {
    if raw == 0 then Unprivileged else if raw == 1 then Supervisor else if raw == 2 then Hypervisor else Machine
  }

  function ExceptionInitiate(xlen: Xlen, f: CsrFile, act: Privilege, to: Privilege): CsrFile {
    if to == Machine then
      var f1 := WriteField(xlen, f, MSTATUS_MPIE, ReadField(f, MSTATUS_MIE));
      var f2 := WriteField(xlen, f1, MSTATUS_MIE, 0);
      WriteField(xlen, f2, MSTATUS_MPP, PrivilegeBits(act))
    else
      var f1 := WriteField(xlen, f, SSTATUS_SPIE, ReadField(f, SSTATUS_SIE));
      var f2 := WriteField(xlen, f1, SSTATUS_SIE, 0);
      WriteField(xlen, f2, SSTATUS_SPP, if act == Supervisor then 1 else 0)
  }

  /** MRET takes MIE and the level from the stack. */
  function PopMachine(xlen: Xlen, f: CsrFile): (CsrFile, Privilege) {
    var f1 := WriteField(xlen, f, MSTATUS_MIE, ReadField(f, MSTATUS_MPIE));
    var f2 := WriteField(xlen, f1, MSTATUS_MPIE, 1);
    (WriteField(xlen, f2, MSTATUS_MPP, 0), PrivilegeOfBits(Select(3, ReadField(f2, MSTATUS_MPP))))
  }

  /** SRET takes SIE and the level from the stack. */
  function PopSupervisor(xlen: Xlen, f: CsrFile): (CsrFile, Privilege) {
    var f1 := WriteField(xlen, f, MSTATUS_SIE, ReadField(f, MSTATUS_SPIE));
    var f2 := WriteField(xlen, f1, MSTATUS_SPIE, 1);
    (WriteField(xlen, f2, MSTATUS_SPP, 0),
     if Select(1, ReadField(f2, MSTATUS_SPP)) == 1 then Supervisor else Unprivileged)
  }

  function ExceptionReturn(xlen: Xlen, f: CsrFile, act: Privilege, xret: Privilege): (CsrFile, Privilege) {
    var (popped, restored) :=
      match xret
      case Machine => PopMachine(xlen, f)
      case Supervisor => PopSupervisor(xlen, f)
      case _ => (f, Unprivileged);
    (if act == Machine && restored != Machine then WriteField(xlen, popped, MSTATUS_MPRV, 0) else popped, restored)
  }

  function ExceptionPc(f: CsrFile, to: Privilege): Word {
    if to == Supervisor then f[STVEC] else f[MTVEC]
  }
}
