/** The low bits of words as unsigned and signed numbers, and words made from numbers. */
module SignedNumbers {
  import opened Words
  import opened Numbers

  // ---------------------------------------------------------------- low bits

  /** The signed number of `w` bits that equals `n` modulo 2^w. */
  function SignedOf(w: nat, n: int): int {
    var r := n % Pow2(w);
    if 2 * r < Pow2(w) then r else r - Pow2(w)
  }

  lemma SignedShape(v: bv64)
    ensures Signed(v) == if Unsigned(v) < 0x8000_0000_0000_0000 then Unsigned(v) else Unsigned(v) - TWO_64
  {
  }

  lemma SignedIs(v: bv64)
    ensures Signed(v) == SignedOf(64, Unsigned(v))
  {
    hide Unsigned, Signed;
    SignedShape(v);
    Pow2Bytes();
    Bounded(v);
  }

  /** The word shifted to the top and back down. */
  function LowPart(v: bv64, k: bv6): bv64 {
    ShiftedRight(ShiftedLeft(v, k), k)
  }

  lemma Scaled(q: int, t: int, r: int, p: int)
    requires p > 0 && 0 <= r < q
    ensures (q * t + r) * p == (p * q) * t + r * p && 0 <= r * p < p * q
  {
    assert (q * t + r) * p == q * t * p + r * p && q * t * p == (p * q) * t;
    assert r * p <= (q - 1) * p && (q - 1) * p == p * q - p && r * p >= 0;
  }

  lemma ScaledRemainder(n: int, p: int, q: int)
    requires p > 0 && q > 0
    ensures p * q > 0 && n * p % (p * q) == n % q * p && n % q * p / p == n % q
  {
    var t, r := n / q, n % q;
    Scaled(q, t, r, p);
    QuotientIs(n * p, p * q, t, r * p);
    QuotientIs(r * p, p, r, 0);
  }

  lemma LowPartIs(v: bv64, k: bv6, w: nat)
    requires w + k as nat == 64
    ensures Unsigned(LowPart(v, k)) == Unsigned(v) % Pow2(w)
  {
    hide Unsigned, ShiftedLeft, ShiftedRight;
    ShiftLeftIs(v, k);
    ShiftRightIs(ShiftedLeft(v, k), k);
    Pow2Adds(k as nat, w);
    Pow2Bytes();
    ScaledRemainder(Unsigned(v), Pow2(k as nat), Pow2(w));
  }

  function Low8(v: bv64): bv64 {
    v & 0xff
  }

  function Low16(v: bv64): bv64 {
    v & 0xffff
  }

  lemma Low8Shifts(v: bv64)
    ensures ShiftedRight(v << 56, 56) == Low8(v)
  {
  }

  lemma Low16Shifts(v: bv64)
    ensures ShiftedRight(v << 48, 48) == Low16(v)
  {
  }

  lemma Low32Shifts(v: bv64)
    ensures ShiftedRight(v << 32, 32) == Low32(v)
  {
  }

  lemma LowShifts(v: bv64)
    ensures ShiftedLeft(v, 56) == v << 56 && ShiftedLeft(v, 48) == v << 48 && ShiftedLeft(v, 32) == v << 32
  {
  }

  lemma LowIs(v: bv64)
    ensures Unsigned(Low8(v)) == Unsigned(v) % 0x100
    ensures Unsigned(Low16(v)) == Unsigned(v) % 0x1_0000
    ensures Unsigned(Low32(v)) == Unsigned(v) % 0x1_0000_0000
  {
    hide Unsigned, ShiftedLeft, ShiftedRight, Low8, Low16, Low32;
    Pow2Bytes();
    LowShifts(v);
    Low8Shifts(v);
    Low16Shifts(v);
    Low32Shifts(v);
    LowPartIs(v, 56, 8);
    LowPartIs(v, 48, 16);
    LowPartIs(v, 32, 32);
  }

  // ---------------------------------------------------------------- arithmetic shift and sign extension

  lemma FlooredNegative(n: int, p: int)
    requires p > 0 && 0 <= n < TWO_64
    ensures (n - TWO_64) / p == -1 - (TWO_64 - 1 - n) / p
  {
    var x := TWO_64 - 1 - n;
    var q, r := x / p, x % p;
    assert p * (-1 - q) == -p - p * q;
    QuotientIs(n - TWO_64, p, -1 - q, p - 1 - r);
  }

  lemma TopIs(v: bv64)
    ensures Top(v) <==> Unsigned(v) >= 0x8000_0000_0000_0000
  {
    hide Unsigned, Top, WithoutTop;
    TopSplits(v);
  }

  lemma SmallerQuotient(x: nat, p: nat)
    requires p > 0
    ensures 0 <= x / p <= x
  {
    Scales(p, x / p, x % p);
  }

  lemma NotBelow(p: nat, q: int, r: nat)
    requires p > 0 && r < p
    ensures q < 0 ==> p * q + r < 0
  {
    if q < 0 {
      assert p * q <= p * -1;
    }
  }

  lemma Scales(p: nat, q: int, r: nat)
    requires p > 0 && p * q + r >= 0 && r < p
    ensures 0 <= q <= p * q + r
  {
    assert q >= 0 by {
      NotBelow(p, q, r);
    }
    assert p * q >= 1 * q;
  }

  /** The arithmetic shift divides the signed number, rounding down. */
  lemma ArithmeticIs(v: bv64, k: bv6)
    ensures Signed(ArithmeticShiftRight(v, k)) == Signed(v) / Pow2(k as nat)
  {
    hide Top, NotBits, ShiftedRight, Unsigned, Signed;
    var p := Pow2(k as nat);
    var n := Unsigned(v);
    TopIs(v);
    Bounded(v);
    SignedShape(v);
    SignedShape(ArithmeticShiftRight(v, k));
    if Top(v) {
      NotIs(v);
      ShiftRightIs(NotBits(v), k);
      NotIs(ShiftedRight(NotBits(v), k));
      FlooredNegative(n, p);
      SmallerQuotient(TWO_64 - 1 - n, p);
    } else {
      ShiftRightIs(v, k);
      SmallerQuotient(n, p);
    }
  }

  lemma SignExtensions8(v: bv64)
    ensures ArithmeticShiftRight(v << 56, 56) == SignExtend8(v)
  {
  }

  lemma PositiveHalfwords(v: bv64)
    ensures v & 0x8000 == 0 ==> SignExtend16(v) == v & 0xffff
  {
  }

  lemma NegativeHalfwords(v: bv64)
    ensures v & 0x8000 != 0 ==> SignExtend16(v) == v | 0xffff_ffff_ffff_0000
  {
  }

  lemma ShiftedHalfwords(v: bv64)
    ensures ArithmeticShiftRight(v << 48, 48) == if v & 0x8000 == 0 then v & 0xffff else v | 0xffff_ffff_ffff_0000
  {
  }

  lemma SignExtensions16(v: bv64)
    ensures ArithmeticShiftRight(v << 48, 48) == SignExtend16(v)
  {
    hide ArithmeticShiftRight, SignExtend16;
    PositiveHalfwords(v);
    NegativeHalfwords(v);
    ShiftedHalfwords(v);
  }

  lemma PositiveWords(v: bv64)
    ensures v & 0x8000_0000 == 0 ==> SignExtend32(v) == v & 0xffff_ffff
  {
  }

  lemma NegativeWords(v: bv64)
    ensures v & 0x8000_0000 != 0 ==> SignExtend32(v) == v | 0xffff_ffff_0000_0000
  {
  }

  lemma ShiftedWords(v: bv64)
    ensures ArithmeticShiftRight(v << 32, 32)
            == if v & 0x8000_0000 == 0 then v & 0xffff_ffff else v | 0xffff_ffff_0000_0000
  {
  }

  lemma SignExtensions32(v: bv64)
    ensures ArithmeticShiftRight(v << 32, 32) == SignExtend32(v)
  {
    hide ArithmeticShiftRight, SignExtend32;
    PositiveWords(v);
    NegativeWords(v);
    ShiftedWords(v);
  }

  lemma ExtendedScale(r: nat, p: nat, q: nat, n: nat)
    requires p > 0 && r < q && p * q == TWO_64 && n == r * p
    ensures (if n < 0x8000_0000_0000_0000 then n else n - TWO_64) / p == if 2 * r < q then r else r - q
  {
    assert 2 * n == (2 * r) * p;
    if 2 * r < q {
      assert (2 * r) * p <= (q - 1) * p && (q - 1) * p == p * q - p;
      QuotientIs(n, p, r, 0);
    } else {
      assert (2 * r) * p >= q * p;
      assert n - TWO_64 == (r - q) * p;
      QuotientIs(n - TWO_64, p, r - q, 0);
    }
  }

  lemma ExtendedIs(v: bv64, k: bv6, w: nat)
    requires w + k as nat == 64
    ensures Signed(ArithmeticShiftRight(ShiftedLeft(v, k), k)) == SignedOf(w, Unsigned(v))
  {
    hide Unsigned, Signed, ShiftedLeft, ArithmeticShiftRight;
    var p, q := Pow2(k as nat), Pow2(w);
    ArithmeticIs(ShiftedLeft(v, k), k);
    SignedShape(ShiftedLeft(v, k));
    ShiftLeftIs(v, k);
    Pow2Adds(k as nat, w);
    Pow2Bytes();
    ScaledRemainder(Unsigned(v), p, q);
    ExtendedScale(Unsigned(v) % q, p, q, Unsigned(ShiftedLeft(v, k)));
  }

  lemma SignExtendIs(v: bv64)
    ensures Signed(SignExtend8(v)) == SignedOf(8, Unsigned(v))
    ensures Signed(SignExtend16(v)) == SignedOf(16, Unsigned(v))
    ensures Signed(SignExtend32(v)) == SignedOf(32, Unsigned(v))
  {
    hide Unsigned, Signed, ShiftedLeft, ArithmeticShiftRight, SignExtend8, SignExtend16, SignExtend32, SignedOf;
    LowShifts(v);
    SignExtensions8(v);
    SignExtensions16(v);
    SignExtensions32(v);
    ExtendedIs(v, 56, 8);
    ExtendedIs(v, 48, 16);
    ExtendedIs(v, 32, 32);
  }

  // ---------------------------------------------------------------- words made from numbers

  function FromNat(n: nat): bv64 {
    if n == 0 then 0 else Double(FromNat(n / 2), n % 2 == 1)
  }

  lemma {:induction false} FromNatIs(n: nat)
    requires n < TWO_64
    ensures Unsigned(FromNat(n)) == n
  {
    hide Unsigned, Double;
    if n == 0 {
      SmallNumbers();
    } else {
      FromNatIs(n / 2);
      DoubleIs(FromNat(n / 2), n % 2 == 1);
    }
  }

  lemma OfIntIs(x: int)
    ensures Unsigned(OfInt(x)) == x % TWO_64
  {
    hide Unsigned;
    var n := x % TWO_64;
    FromNatIs(n);
    Numbered(FromNat(n));
  }

  /** The signed number is the unsigned one modulo 2^64. */
  lemma SignedModulo(v: bv64)
    ensures Signed(v) % TWO_64 == Unsigned(v)
  {
    hide Unsigned, Signed;
    SignedShape(v);
    Bounded(v);
  }
}
