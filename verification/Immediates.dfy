/** Immediate operands: the descriptors that encode them and the accessor that decodes them. */
module Immediates {
  import opened SplitFields

  datatype Format = I | S | B | U | J

  /** Where each format keeps its immediate. */
  function Descriptor(f: Format): Split {
    match f
    case I => Split([Part(12, 20)], 0)
    case S => Split([Part(5, 7), Part(7, 25)], 0)
    case B => Split([Part(4, 8), Part(6, 25), Part(1, 7), Part(1, 31)], 1)
    case U => Split([Part(20, 12)], 0)
    case J => Split([Part(10, 21), Part(1, 20), Part(8, 12), Part(1, 31)], 1)
  }

  /** Number of significant bits of the immediate, sign included. */
  function Width(f: Format): nat {
    match f
    case I => 12
    case S => 12
    case B => 13
    case U => 32
    case J => 21
  }

  /** Copies bit `width - 1` into all bits above it. */
  function Extend(v: Bits, width: nat): Bits
    requires 1 <= width <= 32
  {
    seq(32, i requires 0 <= i < 32 => if i < width then v[i] else v[width - 1])
  }

  function Field(count: nat, offset: nat, dt: Bits): Bits {
    DecodePart(Part(count, offset), dt)
  }

  /** The immediate of an instruction word, assembled the way the accessor does it. */
  function Immediate(f: Format, dt: Bits): Bits {
    match f
    case I => Extend(Field(12, 20, dt), 12)
    case S => Extend(Or(ShiftLeft(Field(7, 25, dt), 5), Field(5, 7, dt)), 12)
    case B => Extend(Or(Or(Or(ShiftLeft(Field(4, 8, dt), 1), ShiftLeft(Field(6, 25, dt), 5)),
                           ShiftLeft(Field(1, 7, dt), 11)),
                        ShiftLeft(Field(1, 31, dt), 12)), 13)
    case U => Extend(ShiftLeft(Field(20, 12, dt), 12), 32)
    case J => Extend(Or(Or(Or(ShiftLeft(Field(10, 21, dt), 1), ShiftLeft(Field(1, 20, dt), 11)),
                           ShiftLeft(Field(8, 12, dt), 12)),
                        ShiftLeft(Field(1, 31, dt), 20)), 21)
  }

  lemma DescriptorTotals(f: Format)
    ensures Total(Descriptor(f).parts) + Descriptor(f).shift == if f == U then 20 else Width(f)
  {
    var parts := Descriptor(f).parts;
    if |parts| > 1 {
      assert parts[1..][0] == parts[1];
    }
    if |parts| > 2 {
      assert parts[1..][1..] == parts[2..] && parts[2..][1..] == parts[3..] && parts[3..][1..] == [];
    }
  }

  lemma DescriptorValid(f: Format)
    ensures Descriptor(f).Valid()
  {
    DescriptorTotals(f);
    hide Total;
    match f
    case I =>
    case S =>
    case B =>
    case U =>
    case J =>
  }

  lemma DecodeOne(p: Part, w: Bits)
    ensures DecodeParts([p], w, 0) == DecodePart(p, w)
  {
    assert [p][1..] == [];
  }

  lemma TotalOf(p: Part, q: Part, r: Part)
    ensures Total([p]) == p.count && Total([p, q]) == p.count + q.count
            && Total([p, q, r]) == p.count + q.count + r.count
  {
    assert [p][1..] == [] && [p, q][1..] == [q] && [p, q, r][1..] == [q, r] && [q, r][1..] == [r] && [q][1..] == []
           && [r][1..] == [];
    assert Total([r]) == r.count && Total([q, r]) == q.count + r.count;
  }

  lemma DecodeTwo(p: Part, q: Part, w: Bits)
    ensures DecodeParts([p, q], w, 0) == Or(DecodePart(p, w), ShiftLeft(DecodePart(q, w), p.count))
  {
    hide DecodeParts, DecodePart, ShiftLeft, Or;
    DecodeOne(p, w);
    DecodeAppends([p], w, 0, q);
    assert [p] + [q] == [p, q];
    TotalOf(p, q, q);
  }

  lemma DecodeFour(p: Part, q: Part, r: Part, t: Part, w: Bits)
    ensures DecodeParts([p, q, r, t], w, 0)
            == Or(Or(Or(DecodePart(p, w), ShiftLeft(DecodePart(q, w), p.count)),
                     ShiftLeft(DecodePart(r, w), p.count + q.count)),
                  ShiftLeft(DecodePart(t, w), p.count + q.count + r.count))
  {
    hide DecodeParts, DecodePart, ShiftLeft, Or;
    DecodeTwo(p, q, w);
    DecodeAppends([p, q], w, 0, r);
    DecodeAppends([p, q, r], w, 0, t);
    assert [p, q] + [r] == [p, q, r] && [p, q, r] + [t] == [p, q, r, t];
    TotalOf(p, q, r);
  }

  lemma ShiftDistributes(a: Bits, b: Bits, k: nat)
    ensures ShiftLeft(Or(a, b), k) == Or(ShiftLeft(a, k), ShiftLeft(b, k))
  {
  }

  lemma ShiftTwice(a: Bits, j: nat, k: nat)
    ensures ShiftLeft(ShiftLeft(a, j), k) == ShiftLeft(a, j + k)
  {
  }

  lemma ShiftFour(a: Bits, b: Bits, c: Bits, d: Bits, i: nat, j: nat, k: nat)
    ensures ShiftLeft(Or(Or(Or(a, ShiftLeft(b, i)), ShiftLeft(c, j)), ShiftLeft(d, k)), 1)
            == Or(Or(Or(ShiftLeft(a, 1), ShiftLeft(b, i + 1)), ShiftLeft(c, j + 1)), ShiftLeft(d, k + 1))
  {
    hide ShiftLeft, Or;
    ShiftDistributes(Or(Or(a, ShiftLeft(b, i)), ShiftLeft(c, j)), ShiftLeft(d, k), 1);
    ShiftDistributes(Or(a, ShiftLeft(b, i)), ShiftLeft(c, j), 1);
    ShiftDistributes(a, ShiftLeft(b, i), 1);
    ShiftTwice(b, i, 1);
    ShiftTwice(c, j, 1);
    ShiftTwice(d, k, 1);
  }

  lemma OrSwaps(a: Bits, b: Bits)
    ensures Or(a, b) == Or(b, a)
  {
  }

  /** The accessor reads the same bits as the descriptor of the format, sign-extended. */
  lemma ImmediateDecodes(f: Format, dt: Bits)
    ensures
      var decoded := DecodeSplit(Descriptor(f), dt);
      Immediate(f, dt) == Extend(if f == U then ShiftLeft(decoded, 12) else decoded, Width(f))
  {
    hide DecodeParts, DecodePart, ShiftLeft, Or, Extend;
    ShiftNone(DecodeParts(Descriptor(f).parts, dt, 0));
    match f
    case I => DecodeOne(Part(12, 20), dt);
    case S =>
      DecodeTwo(Part(5, 7), Part(7, 25), dt);
      OrSwaps(ShiftLeft(Field(7, 25, dt), 5), Field(5, 7, dt));
    case B =>
      DecodeFour(Part(4, 8), Part(6, 25), Part(1, 7), Part(1, 31), dt);
      ShiftFour(Field(4, 8, dt), Field(6, 25, dt), Field(1, 7, dt), Field(1, 31, dt), 4, 10, 11);
    case U => DecodeOne(Part(20, 12), dt);
    case J =>
      DecodeFour(Part(10, 21), Part(1, 20), Part(8, 12), Part(1, 31), dt);
      ShiftFour(Field(10, 21, dt), Field(1, 20, dt), Field(8, 12, dt), Field(1, 31, dt), 10, 11, 19);
  }

  /** Signed values that fit the format: all bits from the sign bit up equal, and even for branches and jumps. */
  predicate InRange(f: Format, v: Bits) {
    (forall i :: Width(f) <= i < 32 ==> v[i] == v[Width(f) - 1]) && (Descriptor(f).shift == 1 ==> !v[0])
  }

  /** The word with the immediate's bits replaced. */
  predicate Patched(f: Format, was: Bits, v: Bits, dt: Bits) {
    forall i :: 0 <= i < 32 ==>
      dt[i] == if Covers(Descriptor(f).parts, i) then EncodeSplit(Descriptor(f), v)[i] else was[i]
  }

  /** Whatever the rest of the word, the accessor recovers every value in range that was encoded. */
  lemma ImmediateRecovers(f: Format, was: Bits, v: Bits, dt: Bits)
    requires f != U && InRange(f, v) && Patched(f, was, v, dt)
    ensures Immediate(f, dt) == v
  {
    hide Immediate, DecodeParts, EncodeParts;
    var split := Descriptor(f);
    DescriptorTotals(f);
    DescriptorValid(f);
    DecodeReads(split.parts, dt, EncodeSplit(split, v), 0);
    DecodeEncode(split, v);
    ImmediateDecodes(f, dt);
  }
}
