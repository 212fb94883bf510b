/** What writes to CSRs and interrupt signals do, bit by bit, with the writable bits of each register listed. */
module CsrBits {
  import opened Words
  import opened Numbers
  import opened SignedNumbers
  import opened MachineDefs
  import opened CsrFunctions
  import opened BitFields
  import opened AluMeaning
  import opened TrapMeaning

  // ---------------------------------------------------------------- bits of words

  lemma MaskedParts(mask: bv64, reg: bv64, val: bv64)
    ensures Masked(mask, reg, val) == OrBits(AndBits(val, mask), ClearBits(mask, reg))
  {
  }

  lemma SelectedBit(mask: bv64, val: bv64, i: nat)
    ensures BitOf(Unsigned(Select(mask, val)), i) <==> BitOf(Unsigned(val), i) && BitOf(Unsigned(mask), i)
  {
    hide Unsigned, Select, AndBits, Bitwise, BitOf;
    SelectAnds(mask, val);
    LogicIs(Conjunction, val, mask);
    BitwiseAt(Conjunction, Unsigned(val), Unsigned(mask), i);
  }

  lemma MaskedBit(mask: bv64, reg: bv64, val: bv64, i: nat)
    ensures BitOf(Unsigned(Masked(mask, reg, val)), i)
            <==> BitOf(Unsigned(if BitOf(Unsigned(mask), i) then val else reg), i)
  {
    hide Unsigned, Masked, AndBits, OrBits, ClearBits, Bitwise, BitOf;
    var kept, taken := ClearBits(mask, reg), AndBits(val, mask);
    MaskedParts(mask, reg, val);
    LogicIs(Disjunction, taken, kept);
    BitwiseAt(Disjunction, Unsigned(taken), Unsigned(kept), i);
    LogicIs(Conjunction, val, mask);
    BitwiseAt(Conjunction, Unsigned(val), Unsigned(mask), i);
    LogicIs(Clearing, mask, reg);
    BitwiseAt(Clearing, Unsigned(mask), Unsigned(reg), i);
  }

  lemma NoHighBit(v: bv64, i: nat)
    ensures BitOf(Unsigned(v), i) ==> i < 64
  {
    hide Unsigned, BitOf, Pow2;
    Bounded(v);
    Pow2Bytes();
    BitOfRemainder(Unsigned(v), 64, i);
  }

  lemma TruncatedBit(xlen: Xlen, v: bv64, i: nat)
    ensures BitOf(Unsigned(TruncateBits(xlen, v)), i) <==> i < XlenBits(xlen) && BitOf(Unsigned(v), i)
  {
    hide Unsigned, BitOf, Pow2, Low32;
    NoHighBit(v, i);
    Pow2Bytes();
    LowIs(v);
    BitOfRemainder(Unsigned(v), 32, i);
  }

  // ---------------------------------------------------------------- tables

  /** The bits of a register that a write can change. */
  predicate Admits(id: CsrId, i: nat) {
    if id in {CYCLE, TIME, MVENDORID, MARCHID, MIMPID, MISA} then false
    else if id in {STIMECMP, MIDELEG, MCOUNTERN, MENVCFG, MENVCFGH, PMPCFG0, SSTATUS, SATP} then i < 32
    else if id == MSTATUS then i == 1 || i == 3 || 5 <= i <= 22
    else if id == MEDELEG then i < 32 && i != 11 && i != 16
    else if id == MIE then i in {1, 3, 5, 7, 9, 11} || 16 <= i <= 23
    else if id == MIP then i in {1, 5, 9}
    else if id == PMPADDR0 then 2 <= i < 32
    else if id in {SIE, SIP} then i in {1, 5, 9, 16}
    else i < 64
  }

  lemma StatusMasks(k: bv6)
    ensures (0x007F_FFEA as bv64 >> k) & 1 == 1 <==> k == 1 || k == 3 || 5 <= k <= 22
    ensures (0xfffe_f7ff as bv64 >> k) & 1 == 1 <==> k < 32 && k != 11 && k != 16
    ensures (0xFFFF_FFFC as bv64 >> k) & 1 == 1 <==> 2 <= k < 32
    ensures (0xffff_ffff as bv64 >> k) & 1 == 1 <==> k < 32
  {
  }

  lemma InterruptMasks(k: bv6)
    ensures (0x00ff_0AAA as bv64 >> k) & 1 == 1 <==>
            k == 1 || k == 3 || k == 5 || k == 7 || k == 9 || k == 11 || 16 <= k <= 23
    ensures (0x0000_0222 as bv64 >> k) & 1 == 1 <==> k == 1 || k == 5 || k == 9
    ensures (0x0001_0222 as bv64 >> k) & 1 == 1 <==> k == 1 || k == 5 || k == 9 || k == 16
    ensures (0xffff_ffff_ffff_ffff as bv64 >> k) & 1 == 1 && (0 as bv64 >> k) & 1 == 0
  {
  }

  predicate At(v: bv64, k: bv6) {
    (v >> k) & 1 == 1
  }

  lemma AtIs(v: bv64, k: bv6)
    ensures At(v, k) <==> BitOf(Unsigned(v), k as nat)
  {
    hide Unsigned, BitOf;
    BitAtIs(v, k);
  }

  lemma MaskBits(id: CsrId, k: bv6)
    ensures At(WriteMask(id), k) <==> Admits(id, k as nat)
  {
    StatusMasks(k);
    InterruptMasks(k);
  }

  lemma AdmitsBelow(id: CsrId, i: nat)
    ensures Admits(id, i) ==> i < 64
  {
  }

  lemma Place(i: nat) returns (k: bv6)
    requires i < 64
    ensures k as nat == i
  {
    k := i as bv6;
  }

  lemma WriteMaskBit(id: CsrId, i: nat)
    ensures BitOf(Unsigned(WriteMask(id)), i) <==> Admits(id, i)
  {
    hide Unsigned, BitOf, WriteMask, Admits, At;
    NoHighBit(WriteMask(id), i);
    AdmitsBelow(id, i);
    if i < 64 {
      var k := Place(i);
      MaskBits(id, k);
      AtIs(WriteMask(id), k);
    }
  }

  /** SIE, SPIE, SPP, SUM and MXR, on RV64 also UXL and SXL: the bits of mstatus that sstatus shows. */
  predicate Shares(xlen: Xlen, i: nat) {
    i in {1, 5, 8, 18, 19} || (xlen == Xlen64 && 32 <= i <= 35)
  }

  lemma SharedMaskIs(xlen: Xlen)
    ensures SharedMask(xlen) == if xlen == Xlen32 then 0xc_0122 else 0xf_000c_0122
  {
  }

  lemma SharedMasks(xlen: Xlen, k: bv6)
    ensures At(SharedMask(xlen), k) <==> Shares(xlen, k as nat)
  {
    hide SharedMask;
    SharedMaskIs(xlen);
    SharedBits(k);
  }

  lemma SharedBits(k: bv6)
    ensures (0xc_0122 as bv64 >> k) & 1 == 1 <==> k == 1 || k == 5 || k == 8 || k == 18 || k == 19
    ensures (0xf_000c_0122 as bv64 >> k) & 1 == 1 <==>
            k == 1 || k == 5 || k == 8 || k == 18 || k == 19 || 32 <= k <= 35
  {
  }

  lemma SharedMaskBit(xlen: Xlen, i: nat)
    ensures BitOf(Unsigned(SharedMask(xlen)), i) <==> Shares(xlen, i)
  {
    hide Unsigned, BitOf, SharedMask, At;
    NoHighBit(SharedMask(xlen), i);
    if i < 64 {
      var k := Place(i);
      SharedMasks(xlen, k);
      AtIs(SharedMask(xlen), k);
    }
  }

  // ---------------------------------------------------------------- writes

  /** Bit `i` of the register is the written one where the register admits it, and 0 beyond the machine's width. */
  ghost predicate Takes(xlen: Xlen, id: CsrId, was: Word, val: Word, now: Word, i: nat) {
    HasBit(now, i) <==> i < XlenBits(xlen) && HasBit(if Admits(id, i) then val else was, i)
  }

  lemma DefaultWriteBit(xlen: Xlen, id: CsrId, reg: Word, val: Word, i: nat)
    ensures Takes(xlen, id, reg, val, DefaultWrite(xlen, WriteMask(id), reg, val), i)
  {
    hide Unsigned, BitOf, WriteMask, TruncateBits, Masked, Admits;
    TruncatedBit(xlen, Masked(WriteMask(id), reg.bits, val.bits), i);
    MaskedBit(WriteMask(id), reg.bits, val.bits, i);
    WriteMaskBit(id, i);
  }

  /** A register without a write handler of its own; all others keep their values. */
  lemma WriteBits(xlen: Xlen, f: CsrFile, id: CsrId, val: Word, i: nat)
    requires id !in {MSTATUS, SSTATUS, SATP, MCYCLE}
    ensures
      var f' := WriteInternal(xlen, f, id, val);
      Takes(xlen, id, f[id], val, f'[id], i) && forall j: CsrId :: j != id ==> f'[j] == f[j]
  {
    hide DefaultWrite, Takes;
    DefaultWriteBit(xlen, id, f[id], val, i);
  }

  lemma ShownBit(xlen: Xlen, mstatus: bv64, i: nat)
    ensures HasBit(Word(Shown(xlen, mstatus)), i) <==> Shares(xlen, i) && BitOf(Unsigned(mstatus), i)
  {
    hide Unsigned, BitOf, SharedMask, TruncateBits, Select;
    TruncatedBit(xlen, Select(SharedMask(xlen), mstatus), i);
    SelectedBit(SharedMask(xlen), mstatus, i);
    SharedMaskBit(xlen, i);
  }

  /** mstatus takes the bits it admits and sstatus shows the shared ones of them. */
  lemma MstatusWriteBits(xlen: Xlen, f: CsrFile, val: Word, i: nat)
    ensures
      var f' := WriteInternal(xlen, f, MSTATUS, val);
      && Takes(xlen, MSTATUS, f[MSTATUS], val, f'[MSTATUS], i)
      && (HasBit(f'[SSTATUS], i) <==> Shares(xlen, i) && HasBit(f'[MSTATUS], i))
      && forall j: CsrId :: j != MSTATUS && j != SSTATUS ==> f'[j] == f[j]
  {
    hide DefaultWrite, Takes, Shown, Shares;
    var mstatus := DefaultWrite(xlen, WriteMask(MSTATUS), f[MSTATUS], val);
    DefaultWriteBit(xlen, MSTATUS, f[MSTATUS], val, i);
    ShownBit(xlen, mstatus.bits, i);
  }

  /** A write to sstatus puts the shared bits below 32 into mstatus and zeroes the others; both show them. */
  lemma SstatusWriteBits(xlen: Xlen, f: CsrFile, val: Word, i: nat)
    ensures
      var f' := WriteInternal(xlen, f, SSTATUS, val);
      && (HasBit(f'[MSTATUS], i) <==> if Shares(xlen, i) then i < 32 && HasBit(val, i) else HasBit(f[MSTATUS], i))
      && (HasBit(f'[SSTATUS], i) <==> Shares(xlen, i) && HasBit(f'[MSTATUS], i))
      && forall j: CsrId :: j != MSTATUS && j != SSTATUS ==> f'[j] == f[j]
  {
    hide Unsigned, BitOf, WriteMask, SharedMask, Masked, Select, Shown, Shares;
    var mstatus, written := Merged(xlen, f[MSTATUS].bits, val.bits), Select(WriteMask(SSTATUS), val.bits);
    MaskedBit(SharedMask(xlen), f[MSTATUS].bits, written, i);
    SharedMaskBit(xlen, i);
    SelectedBit(WriteMask(SSTATUS), val.bits, i);
    WriteMaskBit(SSTATUS, i);
    ShownBit(xlen, mstatus, i);
  }

  lemma ModeMask(k: bv6)
    ensures (0x0fff_ffff_ffff_ffff as bv64 >> k) & 1 == 1 <==> k < 60
  {
  }

  lemma ModeMaskBit(i: nat)
    ensures BitOf(Unsigned(0x0fff_ffff_ffff_ffff), i) <==> i < 60
  {
    hide Unsigned, BitOf;
    NoHighBit(0x0fff_ffff_ffff_ffff, i);
    if i < 64 {
      var k := Place(i);
      ModeMask(k);
      BitAtIs(0x0fff_ffff_ffff_ffff, k);
    }
  }

  lemma ModeShift(v: bv64)
    ensures ShiftedRight(v, 60) == v >> 60
  {
  }

  lemma Modes()
    ensures Unsigned(0) == 0 && Unsigned(8) == 8 && Unsigned(9) == 9
  {
  }

  /** The mode in the four top bits is none, Sv39 or Sv48. */
  lemma ModeIs(v: bv64)
    ensures ValidSatpMode(v) <==> Unsigned(v) / 0x1000_0000_0000_0000 in {0, 8, 9}
  {
    hide Unsigned, ShiftedRight, Pow2;
    ModeShift(v);
    ShiftRightIs(v, 60);
    Modes();
    Pow2Bytes();
    Pow2Adds(60, 4);
    assert Pow2(4) == 16 by { Small(); }
    var mode := v >> 60;
    if Unsigned(mode) in {0, 8, 9} {
      if Unsigned(mode) == 0 {
        SameNumber(mode, 0);
      } else if Unsigned(mode) == 8 {
        SameNumber(mode, 8);
      } else {
        SameNumber(mode, 9);
      }
    }
  }

  lemma Small()
    ensures Pow2(4) == 16
  {
  }

  /** On RV32 satp takes 32 bits; on RV64 all, but for the mode unless it is none, Sv39 or Sv48. */
  lemma SatpWriteBits(xlen: Xlen, f: CsrFile, val: Word, i: nat)
    ensures
      var f' := WriteInternal(xlen, f, SATP, val);
      var mode := Unsigned(val.bits) / 0x1000_0000_0000_0000;
      var kept := if xlen == Xlen32 then 32 else if mode in {0, 8, 9} then 64 else 60;
      && (HasBit(f'[SATP], i) <==> i < kept && HasBit(val, i))
      && forall j: CsrId :: j != SATP ==> f'[j] == f[j]
  {
    hide Unsigned, BitOf, TruncateBits, Select, ValidSatpMode;
    ModeIs(val.bits);
    TruncatedBit(xlen, val.bits, i);
    SelectedBit(0x0fff_ffff_ffff_ffff, val.bits, i);
    ModeMaskBit(i);
    NoHighBit(val.bits, i);
  }

  // ---------------------------------------------------------------- interrupt signals

  lemma SignalMask(irq: nat, i: nat)
    requires irq < 32
    ensures BitOf(Unsigned(ShiftedLeft(1, irq as bv6)), i) <==> i == irq
    ensures !BitOf(Unsigned(0), i)
  {
    hide Unsigned, BitOf, ShiftedLeft, Pow2;
    SmallNumbers();
    NoBits(i);
    ShiftLeftIs(1, irq as bv6);
    Pow2Grows(irq, 32);
    Pow2Bytes();
    BitOfJoined(1, irq, 0, i);
    if i >= irq {
      OneBit(i - irq);
    }
  }

  lemma OneBit(i: nat)
    ensures BitOf(1, i) <==> i == 0
  {
    hide BitOf;
    BitOfSum(1, 0, true, i);
    if i > 0 {
      NoBits(i - 1);
    }
  }

  /** An interrupt line below 32 sets or clears its bit of mip; sip then shows the delegated bits. */
  lemma SignalBits(f: CsrFile, irq: nat, active: bool, i: nat)
    ensures
      var f' := SetInterruptSignal(f, irq, active);
      && (irq >= 32 ==> f' == f)
      && (irq < 32 ==>
            && (HasBit(f'[MIP], i) <==> if i == irq then active else HasBit(f[MIP], i))
            && (HasBit(f'[SIP], i) <==> HasBit(f[MIDELEG], i) && HasBit(f'[MIP], i))
            && forall j: CsrId :: j != MIP && j != SIP ==> f'[j] == f[j])
  {
    hide Unsigned, BitOf, Masked, Select, ShiftedLeft;
    if irq < 32 {
      SignalMask(irq, i);
      var mask := ShiftedLeft(1, irq as bv6);
      var level := if active then mask else 0;
      MaskedBit(mask, f[MIP].bits, level, i);
      SelectedBit(f[MIDELEG].bits, Masked(mask, f[MIP].bits, level), i);
    }
  }
}
