/** The immediates of the pseudo-instructions are those of the instruction formats, bit by bit. */
module PatchedImmediates {
  import opened BitFields
  import opened PseudoInstructions
  import Immediates
  import SplitFields

  /** 1 << i, as a table: shifting by a number means converting it to a bit vector, which is costly to reason about. */
  function Bit(i: nat): bv32 {
    if i == 0 then 0x1
    else if i == 1 then 0x2
    else if i == 2 then 0x4
    else if i == 3 then 0x8
    else if i == 4 then 0x10
    else if i == 5 then 0x20
    else if i == 6 then 0x40
    else if i == 7 then 0x80
    else if i == 8 then 0x100
    else if i == 9 then 0x200
    else if i == 10 then 0x400
    else if i == 11 then 0x800
    else if i == 12 then 0x1000
    else if i == 13 then 0x2000
    else if i == 14 then 0x4000
    else if i == 15 then 0x8000
    else if i == 16 then 0x1_0000
    else if i == 17 then 0x2_0000
    else if i == 18 then 0x4_0000
    else if i == 19 then 0x8_0000
    else if i == 20 then 0x10_0000
    else if i == 21 then 0x20_0000
    else if i == 22 then 0x40_0000
    else if i == 23 then 0x80_0000
    else if i == 24 then 0x100_0000
    else if i == 25 then 0x200_0000
    else if i == 26 then 0x400_0000
    else if i == 27 then 0x800_0000
    else if i == 28 then 0x1000_0000
    else if i == 29 then 0x2000_0000
    else if i == 30 then 0x4000_0000
    else 0x8000_0000
  }

  function And(v: bv32, w: bv32): bv32 {
    v & w
  }

  function Up12(w: bv32): bv32 {
    w << 12
  }

  function Up20(w: bv32): bv32 {
    w << 20
  }

  predicate Set(w: bv32, mask: bv32) {
    And(w, mask) != 0
  }

  /** The word, least significant bit first. */
  function ToBits(w: bv32): SplitFields.Bits {
    seq(32, i requires 0 <= i < 32 => Set(w, Bit(i)))
  }

  lemma UpperMasked(dt: bv32)
    ensures UpperImmediate(dt) == And(dt, 0xffff_f000)
  {
  }

  lemma LowerShifted(dt: bv32)
    ensures LOWER_FIELD.Decode32(dt) == dt >> 20
  {
  }

  lemma LowerSpread(dt: bv32)
    ensures Extend(dt >> 20, 12) == (dt >> 20) | (if dt & 0x8000_0000 != 0 then 0xffff_f000 else 0)
  {
  }

  lemma BitsAbove12(i: nat)
    requires i < 32
    ensures And(Bit(i), 0xffff_f000) == if i < 12 then 0 else Bit(i)
  {
  }

  lemma BitsBelow12(i: nat)
    requires i < 12
    ensures And(Bit(i), 0xfff) == Bit(i)
  {
  }

  lemma BitsAbove20(i: nat)
    requires 20 <= i < 32
    ensures And(Bit(i), 0xfff0_0000) == Bit(i)
  {
  }

  lemma BitsBelow20(i: nat)
    requires i < 20
    ensures And(Bit(i), 0xf_ffff) == Bit(i)
  {
  }

  lemma BitsUp12(i: nat)
    requires 12 <= i < 32
    ensures Bit(i) == Up12(Bit(i - 12)) && And(Bit(i - 12), 0xfff0_0000) == 0
  {
  }

  lemma BitsUp20(i: nat)
    requires 20 <= i < 32
    ensures Bit(i) == Up20(Bit(i - 20)) && And(Bit(i - 20), 0xffff_f000) == 0
  {
  }

  lemma Remasked(w: bv32, k: bv32, m: bv32)
    ensures And(And(w, k), m) == And(w, And(m, k))
  {
  }

  lemma NoneSet(w: bv32)
    ensures And(w, 0) == 0
  {
  }

  lemma UpperBit(dt: bv32, i: nat)
    requires i < 32
    ensures Set(And(dt, 0xffff_f000), Bit(i)) <==> i >= 12 && Set(dt, Bit(i))
  {
    hide Bit, And;
    BitsAbove12(i);
    Remasked(dt, 0xffff_f000, Bit(i));
    NoneSet(dt);
  }

  lemma LowerBit(dt: bv32, i: nat)
    requires i < 32
    ensures Set((dt >> 20) | (if dt & 0x8000_0000 != 0 then 0xffff_f000 else 0), Bit(i))
            <==> Set(dt, Bit(if i < 12 then i + 20 else 31))
  {
  }

  lemma UpperAt(w: SplitFields.Bits, i: nat)
    requires i < 32
    ensures Immediates.Immediate(Immediates.U, w)[i] <==> i >= 12 && w[i]
  {
  }

  lemma LowerAt(w: SplitFields.Bits, i: nat)
    requires i < 32
    ensures Immediates.Immediate(Immediates.I, w)[i] <==> w[if i < 12 then i + 20 else 31]
  {
  }

  /** The two immediates are those the accessor of the instruction reads. */
  lemma AccessorReads(dt: bv32)
    ensures ToBits(UpperImmediate(dt)) == Immediates.Immediate(Immediates.U, ToBits(dt))
    ensures ToBits(LowerImmediate(dt)) == Immediates.Immediate(Immediates.I, ToBits(dt))
  {
    hide Set, Bit, UpperImmediate, Extend, BitField.Decode32, Immediates.Immediate;
    UpperMasked(dt);
    LowerShifted(dt);
    LowerSpread(dt);
    forall i | 0 <= i < 32 ensures ToBits(UpperImmediate(dt))[i] == Immediates.Immediate(Immediates.U, ToBits(dt))[i] {
      UpperBit(dt, i);
      UpperAt(ToBits(dt), i);
    }
    forall i | 0 <= i < 32 ensures ToBits(LowerImmediate(dt))[i] == Immediates.Immediate(Immediates.I, ToBits(dt))[i] {
      LowerBit(dt, i);
      LowerAt(ToBits(dt), i);
    }
  }

  function FormatOf(m: Modifier): Immediates.Format {
    match m
    case ComposedUpper => Immediates.U
    case ComposedLower => Immediates.I
  }

  /** The low 32 bits of a value. */
  function Half(value: bv64): bv32 {
    (value & 0xffff_ffff) as bv32
  }

  lemma UpperFilled(dt: bv32, value: bv64)
    ensures
      var w := Patch(dt, ComposedUpper, value);
      And(w, 0xfff) == And(dt, 0xfff) && And(w, 0xffff_f000) == Up12(Half(Modify(ComposedUpper, value)))
  {
    hide Modify;
  }

  lemma LowerFilled(dt: bv32, value: bv64)
    ensures
      var w := Patch(dt, ComposedLower, value);
      And(w, 0xf_ffff) == And(dt, 0xf_ffff) && And(w, 0xfff0_0000) == Up20(Half(Modify(ComposedLower, value)))
  {
    hide Modify;
  }

  lemma Shifted12(v: bv32, m: bv32)
    ensures And(m, 0xfff0_0000) == 0 ==> (And(Up12(v), Up12(m)) == 0 <==> And(v, m) == 0)
  {
  }

  lemma Shifted20(v: bv32, m: bv32)
    ensures And(m, 0xffff_f000) == 0 ==> (And(Up20(v), Up20(m)) == 0 <==> And(v, m) == 0)
  {
  }

  lemma UpperPatchedBit(w: bv32, dt: bv32, v: bv32, i: nat)
    requires And(w, 0xfff) == And(dt, 0xfff) && And(w, 0xffff_f000) == Up12(v) && i < 32
    ensures Set(w, Bit(i)) <==> if i < 12 then Set(dt, Bit(i)) else Set(v, Bit(i - 12))
  {
    hide Bit, And, Up12;
    if i < 12 {
      BitsBelow12(i);
      Remasked(w, 0xfff, Bit(i));
      Remasked(dt, 0xfff, Bit(i));
    } else {
      BitsAbove12(i);
      BitsUp12(i);
      Remasked(w, 0xffff_f000, Bit(i));
      Shifted12(v, Bit(i - 12));
    }
  }

  lemma LowerPatchedBit(w: bv32, dt: bv32, v: bv32, i: nat)
    requires And(w, 0xf_ffff) == And(dt, 0xf_ffff) && And(w, 0xfff0_0000) == Up20(v) && i < 32
    ensures Set(w, Bit(i)) <==> if i < 20 then Set(dt, Bit(i)) else Set(v, Bit(i - 20))
  {
    hide Bit, And, Up20;
    if i < 20 {
      BitsBelow20(i);
      Remasked(w, 0xf_ffff, Bit(i));
      Remasked(dt, 0xf_ffff, Bit(i));
    } else {
      BitsAbove20(i);
      BitsUp20(i);
      Remasked(w, 0xfff0_0000, Bit(i));
      Shifted20(v, Bit(i - 20));
    }
  }

  lemma EncodeOne(p: SplitFields.Part, v: SplitFields.Bits, i: nat)
    requires i < 32
    ensures SplitFields.Covers([p], i) <==> p.Has(i)
    ensures SplitFields.EncodeSplit(SplitFields.Split([p], 0), v)[i] <==> p.Has(i) && v[i - p.offset]
  {
    assert [p][1..] == [] && p in [p];
    assert SplitFields.ShiftRight(v, 0) == v;
    assert SplitFields.EncodeParts([p], v)[i] == SplitFields.EncodePart(p, v)[i];
  }

  /** Patching replaces the bits the format's descriptor names by the encoded half, and no others. */
  lemma PatchEncodes(dt: bv32, m: Modifier, value: bv64)
    ensures Immediates.Patched(FormatOf(m), ToBits(dt), ToBits(Half(Modify(m, value))), ToBits(Patch(dt, m, value)))
  {
    hide Set, Bit, And, Up12, Up20, Modify, Half, Patch, SplitFields.EncodeSplit, SplitFields.Covers;
    var f, v, w := FormatOf(m), Half(Modify(m, value)), Patch(dt, m, value);
    UpperFilled(dt, value);
    LowerFilled(dt, value);
    forall i | 0 <= i < 32
      ensures ToBits(w)[i] == if SplitFields.Covers(Immediates.Descriptor(f).parts, i)
                              then SplitFields.EncodeSplit(Immediates.Descriptor(f), ToBits(v))[i] else ToBits(dt)[i]
    {
      EncodeOne(Immediates.Descriptor(f).parts[0], ToBits(v), i);
      match m
      case ComposedUpper => UpperPatchedBit(w, dt, v, i);
      case ComposedLower => LowerPatchedBit(w, dt, v, i);
    }
  }
}
