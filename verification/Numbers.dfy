/** 64-bit words as numbers: what the operations on bits do to the numbers the bits stand for. */
module Numbers {
  import opened Words

  // ---------------------------------------------------------------- powers of two

  function Pow2(n: nat): (r: nat)
    ensures r >= 1
  {
    if n == 0 then 1 else 2 * Pow2(n - 1)
  }

  lemma {:induction false} Pow2Adds(a: nat, b: nat)
    ensures Pow2(a + b) == Pow2(a) * Pow2(b)
    decreases a
  {
    if a > 0 {
      Pow2Adds(a - 1, b);
    }
  }

  lemma {:induction false} Pow2Grows(a: nat, b: nat)
    requires a <= b
    ensures Pow2(a) <= Pow2(b)
  {
    Pow2Adds(a, b - a);
    assert Pow2(a) * Pow2(b - a) >= Pow2(a) * 1;
  }

  lemma Pow2Bytes()
    ensures Pow2(8) == 0x100 && Pow2(16) == 0x1_0000 && Pow2(32) == 0x1_0000_0000 && Pow2(64) == TWO_64
  {
    assert Pow2(4) == 16;
    Pow2Adds(4, 4);
    Pow2Adds(8, 8);
    Pow2Adds(16, 16);
    Pow2Adds(32, 32);
  }

  lemma Pow2Signs()
    ensures Pow2(31) == 0x8000_0000 && Pow2(63) == 0x8000_0000_0000_0000
  {
    Pow2Bytes();
    assert Pow2(32) == 2 * Pow2(31) && Pow2(64) == 2 * Pow2(63);
  }

  // ---------------------------------------------------------------- doubling

  /** Twice the word, and one more if `odd`. */
  function Double(v: bv64, odd: bool): bv64 {
    if odd then v + v + 1 else v + v
  }

  function Half(v: bv64): bv64 {
    v >> 1
  }

  predicate Odd(v: bv64) {
    v & 1 == 1
  }

  /** Whether the top bit is clear. */
  predicate Short(v: bv64) {
    v < 0x8000_0000_0000_0000
  }

  function Digit(odd: bool): nat {
    if odd then 1 else 0
  }

  lemma Bounded(v: bv64)
    ensures Unsigned(v) < TWO_64
  {
  }

  lemma Numbered(v: bv64)
    ensures Unsigned(v) as bv64 == v
  {
  }

  lemma SameNumber(v: bv64, w: bv64)
    requires Unsigned(v) == Unsigned(w)
    ensures v == w
  {
    Numbered(v);
    Numbered(w);
  }

  lemma SmallNumbers()
    ensures Unsigned(0) == 0 && Unsigned(1) == 1
  {
  }

  lemma DoubleAdds(v: bv64)
    ensures Double(v, true) == v + v + 1 && Double(v, false) == v + v
  {
  }

  lemma DoubleShifts(v: bv64)
    ensures v + v == v << 1 && v + v + 1 == (v << 1) | 1
  {
  }

  lemma ShiftedNumber(v: bv64)
    ensures v < 0x8000_0000_0000_0000 ==> (v << 1) as nat == 2 * (v as nat)
  {
  }

  lemma ShiftedNumberOdd(v: bv64)
    ensures v < 0x8000_0000_0000_0000 ==> ((v << 1) | 1) as nat == 2 * (v as nat) + 1
  {
  }

  lemma ShortDouble(v: bv64, odd: bool)
    requires Short(v)
    ensures Unsigned(Double(v, odd)) == 2 * Unsigned(v) + Digit(odd)
  {
    DoubleShifts(v);
    ShiftedNumber(v);
    ShiftedNumberOdd(v);
  }

  lemma HalfIsShort(v: bv64)
    ensures Short(Half(v))
  {
  }

  lemma DoubleHalf(v: bv64)
    ensures v == Double(Half(v), Odd(v))
  {
  }

  lemma Halves(v: bv64)
    ensures Unsigned(v) == 2 * Unsigned(Half(v)) + Digit(Odd(v))
  {
    hide Unsigned, Half, Odd, Double, Short;
    HalfIsShort(v);
    DoubleHalf(v);
    ShortDouble(Half(v), Odd(v));
  }

  function WithoutTop(v: bv64): bv64 {
    v & 0x7fff_ffff_ffff_ffff
  }

  /** A word from its top bit and the others. */
  function Joined(top: bv1, rest: bv63): bv64 {
    ((top as bv64) << 63) | (rest as bv64)
  }

  function TopPart(v: bv64): bv1 {
    (v >> 63) as bv1
  }

  function RestPart(v: bv64): bv63 {
    (v & 0x7fff_ffff_ffff_ffff) as bv63
  }

  lemma JoinedIs(top: bv1, rest: bv63)
    ensures Unsigned(Joined(top, rest)) == (if top == 1 then 0x8000_0000_0000_0000 else 0) + rest as nat
    ensures rest as nat < 0x8000_0000_0000_0000
  {
  }

  lemma JoinedParts(v: bv64)
    ensures Joined(TopPart(v), RestPart(v)) == v && Joined(0, RestPart(v)) == WithoutTop(v)
    ensures TopPart(v) == 1 <==> Top(v)
  {
  }

  lemma TopSplits(v: bv64)
    ensures Unsigned(v) == (if Top(v) then 0x8000_0000_0000_0000 else 0) + Unsigned(WithoutTop(v))
    ensures Unsigned(WithoutTop(v)) < 0x8000_0000_0000_0000
  {
    hide Unsigned, Joined, TopPart, RestPart, Top, WithoutTop;
    JoinedParts(v);
    JoinedIs(TopPart(v), RestPart(v));
    JoinedIs(0, RestPart(v));
  }

  lemma DoubleWithoutTop(v: bv64, odd: bool)
    ensures Short(WithoutTop(v)) && Double(WithoutTop(v), odd) == Double(v, odd)
  {
    hide Double;
    DoubleAdds(v);
    DoubleAdds(v & 0x7fff_ffff_ffff_ffff);
    DoubleWithoutTopBits(v);
  }

  lemma DoubleWithoutTopBits(v: bv64)
    ensures (v & 0x7fff_ffff_ffff_ffff) + (v & 0x7fff_ffff_ffff_ffff) == v + v
    ensures (v & 0x7fff_ffff_ffff_ffff) + (v & 0x7fff_ffff_ffff_ffff) + 1 == v + v + 1
    ensures v & 0x7fff_ffff_ffff_ffff < 0x8000_0000_0000_0000
  {
  }

  /** Doubling is doubling modulo 2^64. */
  lemma DoubleIs(v: bv64, odd: bool)
    ensures Unsigned(Double(v, odd)) == (2 * Unsigned(v) + Digit(odd)) % TWO_64
  {
    hide Unsigned, Double, Short, WithoutTop, Top;
    TopSplits(v);
    DoubleWithoutTop(v, odd);
    ShortDouble(WithoutTop(v), odd);
  }

  // ---------------------------------------------------------------- sums and differences

  /** The sum of two words and a carry. */
  function Sum3(a: bv64, b: bv64, c: bool): bv64 {
    if c then a + b + 1 else a + b
  }

  predicate Majority(a: bool, b: bool, c: bool) {
    (a && b) || (a && c) || (b && c)
  }

  lemma Sum3Adds(a: bv64, b: bv64)
    ensures Sum3(a, b, true) == a + b + 1 && Sum3(a, b, false) == a + b
  {
  }

  lemma EvenSums(x: bv64, y: bv64)
    ensures Sum3(x + x, y + y, false) == Double(x + y, false) && Sum3(x + x, y + y, true) == Double(x + y, true)
  {
  }

  lemma MixedSums(x: bv64, y: bv64)
    ensures Sum3(x + x + 1, y + y, false) == Double(x + y, true)
    ensures Sum3(x + x + 1, y + y, true) == Double(x + y + 1, false)
  {
  }

  lemma MixedSumsSwapped(x: bv64, y: bv64)
    ensures Sum3(x + x, y + y + 1, false) == Double(x + y, true)
    ensures Sum3(x + x, y + y + 1, true) == Double(x + y + 1, false)
  {
  }

  lemma OddSums(x: bv64, y: bv64)
    ensures Sum3(x + x + 1, y + y + 1, false) == Double(x + y + 1, false)
    ensures Sum3(x + x + 1, y + y + 1, true) == Double(x + y + 1, true)
  {
  }

  lemma SumDoubles(x: bv64, a: bool, y: bv64, b: bool, c: bool)
    ensures Sum3(Double(x, a), Double(y, b), c) == Double(Sum3(x, y, Majority(a, b, c)), (a != b) != c)
  {
    hide Sum3, Double;
    DoubleAdds(x);
    DoubleAdds(y);
    Sum3Adds(x, y);
    EvenSums(x, y);
    MixedSums(x, y);
    MixedSumsSwapped(x, y);
    OddSums(x, y);
  }

  lemma DoubledRemainder(x: nat, d: nat)
    requires d <= 1
    ensures (2 * (x % TWO_64) + d) % TWO_64 == (2 * x + d) % TWO_64
  {
  }

  lemma {:induction false} CarriedSumIs(a: bv64, b: bv64, c: bool)
    ensures Unsigned(Sum3(a, b, c)) == (Unsigned(a) + Unsigned(b) + Digit(c)) % TWO_64
    decreases Unsigned(a) + Unsigned(b)
  {
    hide Unsigned, Sum3, Half, Odd, Double;
    if Unsigned(a) + Unsigned(b) == 0 {
      NoSum(a, b, c);
    } else {
      var x, y, m := Half(a), Half(b), Majority(Odd(a), Odd(b), c);
      Halves(a);
      Halves(b);
      CarriedSumIs(x, y, m);
      DoubleHalf(a);
      DoubleHalf(b);
      SumDoubles(x, Odd(a), y, Odd(b), c);
      DoubleIs(Sum3(x, y, m), (Odd(a) != Odd(b)) != c);
      DoubledRemainder(Unsigned(x) + Unsigned(y) + Digit(m), Digit((Odd(a) != Odd(b)) != c));
    }
  }

  lemma NoSum(a: bv64, b: bv64, c: bool)
    requires Unsigned(a) == 0 && Unsigned(b) == 0
    ensures Unsigned(Sum3(a, b, c)) == Digit(c)
  {
    SameNumber(a, 0);
    SameNumber(b, 0);
  }

  lemma SumIs(a: bv64, b: bv64)
    ensures Unsigned(Add(a, b)) == (Unsigned(a) + Unsigned(b)) % TWO_64
  {
    hide Unsigned, Sum3, Add;
    CarriedSumIs(a, b, false);
    Sum3Adds(a, b);
    AddAdds(a, b);
  }

  lemma AddAdds(a: bv64, b: bv64)
    ensures Add(a, b) == a + b
  {
  }

  lemma DifferenceAddsBack(a: bv64, b: bv64)
    ensures Add(Difference(a, b), b) == a
  {
    hide Add, Difference;
    DifferenceSubtracts(a, b);
    SubtractedAddsBack(a, b);
  }

  lemma SubtractedAddsBack(a: bv64, b: bv64)
    ensures Add(a - b, b) == a
  {
  }

  lemma DifferenceSubtracts(a: bv64, b: bv64)
    ensures Difference(a, b) == a - b
  {
  }

  lemma DifferenceIs(a: bv64, b: bv64)
    ensures Unsigned(Difference(a, b)) == (Unsigned(a) - Unsigned(b)) % TWO_64
  {
    hide Unsigned, Add, Difference;
    DifferenceAddsBack(a, b);
    SumIs(Difference(a, b), b);
    Bounded(Difference(a, b));
    Bounded(a);
    Bounded(b);
  }

  lemma NotDiffers(a: bv64)
    ensures NotBits(a) == Difference(0xffff_ffff_ffff_ffff, a)
  {
  }

  lemma AllOnes()
    ensures Unsigned(0xffff_ffff_ffff_ffff) == TWO_64 - 1
  {
  }

  lemma NotIs(a: bv64)
    ensures Unsigned(NotBits(a)) == TWO_64 - 1 - Unsigned(a)
  {
    hide Unsigned, NotBits, Difference;
    NotDiffers(a);
    AllOnes();
    DifferenceIs(0xffff_ffff_ffff_ffff, a);
    Bounded(a);
  }

  // ---------------------------------------------------------------- products

  lemma ProductMultiplies(a: bv64, b: bv64)
    ensures Product(a, b) == a * b
  {
  }

  lemma ProductDoubles(a: bv64, x: bv64, odd: bool)
    ensures Product(a, Double(x, odd))
            == if odd then Add(Double(Product(a, x), false), a) else Double(Product(a, x), false)
  {
    hide Product, Double, Add;
    DoubleAdds(x);
    ProductMultiplies(a, x);
    EvenProduct(a, x);
    OddProduct(a, x);
    DoubleProduct(a, x);
  }

  lemma EvenProduct(a: bv64, x: bv64)
    ensures Product(a, x + x) == a * x + a * x
  {
  }

  lemma OddProduct(a: bv64, x: bv64)
    ensures Product(a, x + x + 1) == Add(a * x + a * x, a)
  {
  }

  lemma DoubleProduct(a: bv64, x: bv64)
    ensures Double(a * x, false) == a * x + a * x
  {
  }

  lemma ProductZero(a: bv64, b: bv64)
    requires Unsigned(b) == 0
    ensures Unsigned(Product(a, b)) == 0
  {
    SameNumber(b, 0);
  }

  lemma WrappedSum(p: int, q: int)
    ensures (p % TWO_64 + q) % TWO_64 == (p + q) % TWO_64
  {
  }

  lemma WrappedDouble(p: int)
    ensures 2 * (p % TWO_64) % TWO_64 == 2 * p % TWO_64
  {
  }

  /** One digit of a product by long multiplication. */
  lemma ProductStep(a: nat, x: nat, b: nat, odd: bool, p: nat, d: nat, product: nat)
    requires b == 2 * x + Digit(odd) && p == a * x % TWO_64 && d == 2 * p % TWO_64
    requires product == if odd then (d + a) % TWO_64 else d
    ensures product == a * b % TWO_64
  {
    assert a * b == 2 * (a * x) + if odd then a else 0;
    WrappedDouble(a * x);
    WrappedSum(2 * (a * x), a);
  }

  lemma {:induction false} ProductIs(a: bv64, b: bv64)
    ensures Unsigned(Product(a, b)) == Unsigned(a) * Unsigned(b) % TWO_64
    decreases Unsigned(b)
  {
    hide Unsigned, Product, Half, Odd, Double, Add;
    if Unsigned(b) == 0 {
      ProductZero(a, b);
    } else {
      var x, p := Half(b), Product(a, Half(b));
      Halves(b);
      ProductIs(a, x);
      DoubleHalf(b);
      ProductDoubles(a, x, Odd(b));
      DoubleIs(p, false);
      SumIs(Double(p, false), a);
      ProductStep(Unsigned(a), Unsigned(x), Unsigned(b), Odd(b), Unsigned(p), Unsigned(Double(p, false)),
                  Unsigned(Product(a, b)));
    }
  }

  // ---------------------------------------------------------------- order

  lemma NotLess(a: bv64)
    ensures !Less(a, a)
  {
  }

  lemma LessShiftedBits(a: bv64, b: bv64)
    ensures a < b
            <==> || (a >> 63 != 1 && b >> 63 == 1)
                 || ((a >> 63 == 1 <==> b >> 63 == 1) && (a << 1) < (b << 1))
  {
  }

  lemma DoubleLess(a: bv64, b: bv64)
    ensures Less(a + a, b + b) <==> (a << 1) < (b << 1)
  {
  }

  /** The top bits decide, or else what is below them. */
  lemma LessDoubled(a: bv64, b: bv64)
    ensures Less(a, b)
            <==> || (!Top(a) && Top(b))
                 || ((Top(a) <==> Top(b)) && Less(Double(a, false), Double(b, false)))
  {
    hide Double;
    DoubleAdds(a);
    DoubleAdds(b);
    LessShiftedBits(a, b);
    DoubleLess(a, b);
  }

  /** `a` is `x` in the top `m` bits. */
  predicate Aligned(a: bv64, x: nat, m: nat) {
    m <= 64 && x < Pow2(m) && Unsigned(a) == x * Pow2(64 - m)
  }

  lemma ScaledBelow(x: nat, p: nat, q: nat)
    requires x < p && q > 0
    ensures 0 <= x * q < p * q && x * (2 * q) == 2 * (x * q)
  {
    assert x * q <= (p - 1) * q == p * q - q;
  }

  /** The digit that doubling drops, in numbers. */
  lemma TopDigit(n: nat, x: nat, p: nat, q: nat, top: bool, rest: nat)
    requires p * q == 0x8000_0000_0000_0000 && x < 2 * p && n == x * q && q > 0
    requires n == (if top then 0x8000_0000_0000_0000 else 0) + rest && rest < 0x8000_0000_0000_0000
    ensures top <==> x >= p
    ensures 2 * n % TWO_64 == (if top then x - p else x) * (2 * q)
  {
    if x >= p {
      assert n == (x - p) * q + p * q;
      ScaledBelow(x - p, p, q);
      QuotientIs(2 * n, TWO_64, 1, (x - p) * (2 * q));
    } else {
      ScaledBelow(x, p, q);
      QuotientIs(2 * n, TWO_64, 0, x * (2 * q));
    }
  }

  lemma DoubleAligned(a: bv64, x: nat, m: nat)
    requires Aligned(a, x, m) && m > 0
    ensures Top(a) <==> x >= Pow2(m - 1)
    ensures Aligned(Double(a, false), if Top(a) then x - Pow2(m - 1) else x, m - 1)
  {
    hide Unsigned, Top, Double, WithoutTop;
    Pow2Adds(m - 1, 64 - m);
    Pow2Signs();
    TopSplits(a);
    DoubleIs(a, false);
    TopDigit(Unsigned(a), x, Pow2(m - 1), Pow2(64 - m), Top(a), Unsigned(WithoutTop(a)));
  }

  lemma {:induction false} LessAligned(a: bv64, x: nat, b: bv64, y: nat, m: nat)
    requires Aligned(a, x, m) && Aligned(b, y, m)
    ensures Less(a, b) <==> x < y
    decreases m
  {
    hide Unsigned, Less, Top, Double;
    if m == 0 {
      SameNumber(a, b);
      NotLess(a);
    } else {
      DoubleAligned(a, x, m);
      DoubleAligned(b, y, m);
      LessDoubled(a, b);
      var p := Pow2(m - 1);
      LessAligned(Double(a, false), if Top(a) then x - p else x, Double(b, false), if Top(b) then y - p else y, m - 1);
    }
  }

  lemma LessIs(a: bv64, b: bv64)
    ensures Less(a, b) <==> Unsigned(a) < Unsigned(b)
  {
    hide Unsigned, Less;
    Pow2Bytes();
    Bounded(a);
    Bounded(b);
    LessAligned(a, Unsigned(a), b, Unsigned(b), 64);
  }

  // ---------------------------------------------------------------- shifts

  lemma ShiftNone(v: bv64, k: bv6)
    requires k == 0
    ensures ShiftedLeft(v, k) == v && ShiftedRight(v, k) == v
  {
  }

  lemma ShiftOne(v: bv64, k: bv6)
    requires k == 1
    ensures ShiftedLeft(v, k) == Double(v, false) && ShiftedRight(v, k) == Half(v)
  {
    DoubleShifts(v);
  }

  /** The highest bit of a shift amount, and what is below it. */
  function High(k: bv6): bv6 {
    if k & 32 != 0 then 32
    else if k & 16 != 0 then 16 else if k & 8 != 0 then 8 else if k & 4 != 0 then 4 else if k & 2 != 0 then 2 else 1
  }

  function Below(k: bv6): bv6 {
    if k & 32 != 0 then k & 31
    else if k & 16 != 0 then k & 15 else if k & 8 != 0 then k & 7 else if k & 4 != 0 then k & 3
    else if k & 2 != 0 then k & 1 else 0
  }

  lemma ShiftBy32(v: bv64, k: bv6)
    ensures k & 32 != 0 ==> ShiftedLeft(v << 32, k & 31) == v << k
    ensures k & 32 != 0 ==> ShiftedRight(v >> 32, k & 31) == v >> k
  {
  }

  lemma ShiftBy16(v: bv64, k: bv6)
    ensures k & 48 == 16 ==> ShiftedLeft(v << 16, k & 15) == v << k
    ensures k & 48 == 16 ==> ShiftedRight(v >> 16, k & 15) == v >> k
  {
  }

  lemma ShiftBy8(v: bv64, k: bv6)
    ensures k & 56 == 8 ==> ShiftedLeft(v << 8, k & 7) == v << k
    ensures k & 56 == 8 ==> ShiftedRight(v >> 8, k & 7) == v >> k
  {
  }

  lemma ShiftBy4(v: bv64, k: bv6)
    ensures k & 60 == 4 ==> ShiftedLeft(v << 4, k & 3) == v << k
    ensures k & 60 == 4 ==> ShiftedRight(v >> 4, k & 3) == v >> k
  {
  }

  lemma ShiftBy2(v: bv64, k: bv6)
    ensures k & 62 == 2 ==> ShiftedLeft(v << 2, k & 1) == v << k
    ensures k & 62 == 2 ==> ShiftedRight(v >> 2, k & 1) == v >> k
  {
  }

  lemma ShiftedShifts(v: bv64, k: bv6)
    ensures ShiftedLeft(v, k) == v << k && ShiftedRight(v, k) == v >> k
  {
  }

  lemma ConstantShifts(v: bv64)
    ensures ShiftedLeft(v, 32) == v << 32 && ShiftedRight(v, 32) == v >> 32
    ensures ShiftedLeft(v, 16) == v << 16 && ShiftedRight(v, 16) == v >> 16
    ensures ShiftedLeft(v, 8) == v << 8 && ShiftedRight(v, 8) == v >> 8
    ensures ShiftedLeft(v, 4) == v << 4 && ShiftedRight(v, 4) == v >> 4
    ensures ShiftedLeft(v, 2) == v << 2 && ShiftedRight(v, 2) == v >> 2
  {
  }

  lemma Masks(k: bv6)
    ensures k & 32 == 0 && k & 16 != 0 ==> k & 48 == 16
    ensures k & 32 == 0 && k & 16 == 0 && k & 8 != 0 ==> k & 56 == 8
    ensures k & 32 == 0 && k & 16 == 0 && k & 8 == 0 && k & 4 != 0 ==> k & 60 == 4
    ensures k & 32 == 0 && k & 16 == 0 && k & 8 == 0 && k & 4 == 0 && k > 1 ==> k & 62 == 2 && k & 2 != 0
  {
  }

  /** A shift is one by the highest bit of its amount and one by the rest. */
  lemma ShiftInParts(v: bv64, k: bv6)
    requires k > 1
    ensures ShiftedLeft(v, k) == ShiftedLeft(ShiftedLeft(v, High(k)), Below(k))
    ensures ShiftedRight(v, k) == ShiftedRight(ShiftedRight(v, High(k)), Below(k))
  {
    hide ShiftedLeft, ShiftedRight;
    ShiftedShifts(v, k);
    ConstantShifts(v);
    Masks(k);
    if k & 32 != 0 {
      ShiftBy32(v, k);
    } else if k & 16 != 0 {
      ShiftBy16(v, k);
    } else if k & 8 != 0 {
      ShiftBy8(v, k);
    } else if k & 4 != 0 {
      ShiftBy4(v, k);
    } else {
      ShiftBy2(v, k);
    }
  }

  lemma ConstantTwice(v: bv64)
    ensures ShiftedLeft(v << 16, 16) == v << 32 && ShiftedRight(v >> 16, 16) == v >> 32
    ensures ShiftedLeft(v << 8, 8) == v << 16 && ShiftedRight(v >> 8, 8) == v >> 16
    ensures ShiftedLeft(v << 4, 4) == v << 8 && ShiftedRight(v >> 4, 4) == v >> 8
    ensures ShiftedLeft(v << 2, 2) == v << 4 && ShiftedRight(v >> 2, 2) == v >> 4
    ensures ShiftedLeft(v << 1, 1) == v << 2 && ShiftedRight(v >> 1, 1) == v >> 2
    ensures ShiftedLeft(v, 1) == v << 1 && ShiftedRight(v, 1) == v >> 1
  {
  }

  /** Two shifts that make up one by `k`, both by less. */
  function First(k: bv6): bv6 {
    if Below(k) == 0 then k >> 1 else High(k)
  }

  function Second(k: bv6): bv6 {
    if Below(k) == 0 then k >> 1 else Below(k)
  }

  lemma FirstSecond(k: bv6)
    requires k > 1
    ensures k as nat == First(k) as nat + Second(k) as nat && First(k) as nat < k as nat && Second(k) as nat < k as nat
    ensures Below(k) == 0 ==> k == 2 || k == 4 || k == 8 || k == 16 || k == 32
  {
  }

  lemma ShiftTwice(v: bv64, k: bv6)
    requires k > 1
    ensures ShiftedLeft(v, k) == ShiftedLeft(ShiftedLeft(v, First(k)), Second(k))
    ensures ShiftedRight(v, k) == ShiftedRight(ShiftedRight(v, First(k)), Second(k))
  {
    hide ShiftedLeft, ShiftedRight, High, Below;
    FirstSecond(k);
    if Below(k) == 0 {
      ConstantShifts(v);
      ConstantTwice(v);
    } else {
      ShiftInParts(v, k);
    }
  }

  lemma Multiple(t: int, r: int)
    ensures (TWO_64 * t + r) % TWO_64 == r % TWO_64
  {
  }

  lemma WrappedFactor(x: int, q: int)
    ensures (x % TWO_64) * q % TWO_64 == x * q % TWO_64
  {
    var t, r := x / TWO_64, x % TWO_64;
    assert x * q == TWO_64 * (t * q) + r * q;
    Multiple(t * q, r * q);
  }

  /** Shifting left multiplies by a power of two. */
  lemma {:induction false} ShiftLeftIs(v: bv64, k: bv6)
    ensures Unsigned(ShiftedLeft(v, k)) == Unsigned(v) * Pow2(k as nat) % TWO_64
    decreases k as nat
  {
    hide Unsigned, ShiftedLeft, ShiftedRight, Double, First, Second;
    Bounded(v);
    if k == 0 {
      ShiftNone(v, k);
    } else if k == 1 {
      ShiftOne(v, k);
      DoubleIs(v, false);
    } else {
      var i, j := First(k), Second(k);
      FirstSecond(k);
      ShiftTwice(v, k);
      ShiftLeftIs(v, i);
      ShiftLeftIs(ShiftedLeft(v, i), j);
      LeftTwice(Unsigned(v), i as nat, j as nat);
    }
  }

  lemma LeftTwice(a: nat, i: nat, j: nat)
    ensures (a * Pow2(i) % TWO_64) * Pow2(j) % TWO_64 == a * Pow2(i + j) % TWO_64
  {
    Pow2Adds(i, j);
    WrappedFactor(a * Pow2(i), Pow2(j));
    assert a * Pow2(i) * Pow2(j) == a * (Pow2(i) * Pow2(j));
  }

  lemma Regrouped(p: int, q: int, g: int, d: int, r: int)
    requires p > 0 && 0 <= d < q && 0 <= r < p
    ensures p * (q * g + d) + r == (p * q) * g + (p * d + r) && 0 <= p * d + r < p * q
  {
    assert p * (q * g + d) == p * (q * g) + p * d && p * (q * g) == (p * q) * g;
    assert p * d <= p * (q - 1) && p * (q - 1) == p * q - p && p * d >= 0;
  }

  lemma SumModulo(a: int, b: int, m: int)
    requires m > 0
    ensures (a % m + b % m) % m == (a + b) % m && (a + b % m) % m == (a + b) % m
  {
    var p, q, s, t := a / m, b / m, a % m + b % m, a + b % m;
    assert m * (p + q + s / m) == m * p + m * q + m * (s / m);
    QuotientIs(a + b, m, p + q + s / m, s % m);
    assert m * (q + t / m) == m * q + m * (t / m);
    QuotientIs(a + b, m, q + t / m, t % m);
  }

  lemma DivideTwice(x: int, p: int, q: int)
    requires p > 0 && q > 0
    ensures p * q > 0 && x / p / q == x / (p * q)
  {
    var h, r := x / p, x % p;
    Regrouped(p, q, h / q, h % q, r);
    QuotientIs(x, p * q, h / q, p * (h % q) + r);
  }

  lemma QuotientIs(x: int, p: int, q: int, r: int)
    requires p > 0 && x == p * q + r && 0 <= r < p
    ensures x / p == q && x % p == r
  {
    var d := x / p - q;
    assert p * (x / p) == p * q + p * d;
    SmallMultiple(p, d);
  }

  lemma SmallMultiple(p: int, d: int)
    requires p > 0 && -p < p * d < p
    ensures d == 0
  {
  }

  /** Shifting right divides by a power of two. */
  lemma {:induction false} ShiftRightIs(v: bv64, k: bv6)
    ensures Unsigned(ShiftedRight(v, k)) == Unsigned(v) / Pow2(k as nat)
    decreases k as nat
  {
    hide Unsigned, ShiftedLeft, ShiftedRight, Half, Odd, First, Second;
    if k == 0 {
      ShiftNone(v, k);
    } else if k == 1 {
      ShiftOne(v, k);
      Halves(v);
    } else {
      var i, j := First(k), Second(k);
      FirstSecond(k);
      ShiftTwice(v, k);
      ShiftRightIs(v, i);
      ShiftRightIs(ShiftedRight(v, i), j);
      Pow2Adds(i as nat, j as nat);
      DivideTwice(Unsigned(v), Pow2(i as nat), Pow2(j as nat));
    }
  }

  // ---------------------------------------------------------------- bit by bit

  datatype Logic = Conjunction | Disjunction | Exclusion | Clearing {
    predicate OnBits(p: bool, q: bool) {
      match this
      case Conjunction => p && q
      case Disjunction => p || q
      case Exclusion => p != q
      case Clearing => !p && q
    }

    function OnWords(a: bv64, b: bv64): bv64 {
      match this
      case Conjunction => AndBits(a, b)
      case Disjunction => OrBits(a, b)
      case Exclusion => XorBits(a, b)
      case Clearing => ClearBits(a, b)
    }
  }

  /** The number whose binary digits are those of `x` and `y` combined. */
  function Bitwise(logic: Logic, x: nat, y: nat): nat
    decreases x + y
  {
    if x + y == 0 then 0 else 2 * Bitwise(logic, x / 2, y / 2) + Digit(logic.OnBits(x % 2 == 1, y % 2 == 1))
  }

  /** Binary digit `i` of a number. */
  predicate BitOf(n: nat, i: nat) {
    n / Pow2(i) % 2 == 1
  }

  lemma BitOfHalf(n: nat, i: nat)
    requires i > 0
    ensures BitOf(n, i) == BitOf(n / 2, i - 1)
  {
    DivideTwice(n, 2, Pow2(i - 1));
  }

  lemma NoBits(i: nat)
    ensures !BitOf(0, i)
  {
    QuotientIs(0, Pow2(i), 0, 0);
  }

  lemma BitOfSum(n: nat, x: nat, d: bool, i: nat)
    requires n == 2 * x + Digit(d)
    ensures BitOf(n, i) == if i == 0 then d else BitOf(x, i - 1)
  {
    if i > 0 {
      hide BitOf;
      BitOfHalf(n, i);
    }
  }

  lemma {:induction false} BitwiseAt(logic: Logic, x: nat, y: nat, i: nat)
    ensures BitOf(Bitwise(logic, x, y), i) == logic.OnBits(BitOf(x, i), BitOf(y, i))
    decreases x + y
  {
    hide BitOf;
    if x + y == 0 {
      NoBits(i);
    } else {
      BitOfSum(x, x / 2, x % 2 == 1, i);
      BitOfSum(y, y / 2, y % 2 == 1, i);
      BitOfSum(Bitwise(logic, x, y), Bitwise(logic, x / 2, y / 2), logic.OnBits(x % 2 == 1, y % 2 == 1), i);
      if i > 0 {
        BitwiseAt(logic, x / 2, y / 2, i - 1);
      }
    }
  }

  lemma LowDigitTwo(x: nat, p: nat, m: nat)
    requires p > 0 && m == 2 * p
    ensures x % m == x % 2 + 2 * (x / 2 % p)
  {
    var y := x / 2;
    var q, r := y / p, y % p;
    assert x == 2 * y + x % 2 && y == p * q + r;
    assert 2 * (p * q) == m * q;
    QuotientIs(x, m, q, 2 * r + x % 2);
  }

  /** Digits of a remainder, of a number put above another, and of a quarter. */
  lemma {:induction false} BitOfRemainder(n: nat, k: nat, i: nat)
    ensures BitOf(n % Pow2(k), i) == (i < k && BitOf(n, i))
    decreases k
  {
    hide BitOf;
    if k == 0 {
      NoBits(i);
    } else {
      LowDigitTwo(n, Pow2(k - 1), Pow2(k));
      BitOfSum(n, n / 2, n % 2 == 1, i);
      BitOfSum(n % Pow2(k), n / 2 % Pow2(k - 1), n % 2 == 1, i);
      if i > 0 {
        BitOfRemainder(n / 2, k - 1, i - 1);
      }
    }
  }

  lemma {:induction false} BitOfJoined(h: nat, k: nat, l: nat, i: nat)
    requires l < Pow2(k)
    ensures BitOf(h * Pow2(k) + l, i) == if i < k then BitOf(l, i) else BitOf(h, i - k)
    decreases k
  {
    if k > 0 {
      hide BitOf;
      var n := h * Pow2(k) + l;
      assert h * Pow2(k) == 2 * (h * Pow2(k - 1));
      BitOfSum(n, h * Pow2(k - 1) + l / 2, l % 2 == 1, i);
      BitOfSum(l, l / 2, l % 2 == 1, i);
      if i > 0 {
        BitOfJoined(h, k - 1, l / 2, i - 1);
      }
    }
  }

  lemma BitOfQuarter(n: nat, i: nat)
    ensures BitOf(n / 4, i) == BitOf(n, i + 2)
  {
    hide BitOf;
    BitOfHalf(n, i + 2);
    BitOfHalf(n / 2, i + 1);
    assert n / 2 / 2 == n / 4;
  }

  lemma AndHalves(a: bv64, b: bv64)
    ensures AndBits(Half(a), Half(b)) == Half(AndBits(a, b))
  {
  }

  lemma AndOdd(a: bv64, b: bv64)
    ensures Odd(AndBits(a, b)) == (Odd(a) && Odd(b))
  {
  }

  lemma OrHalves(a: bv64, b: bv64)
    ensures OrBits(Half(a), Half(b)) == Half(OrBits(a, b))
  {
  }

  lemma OrOdd(a: bv64, b: bv64)
    ensures Odd(OrBits(a, b)) == (Odd(a) || Odd(b))
  {
  }

  lemma XorHalves(a: bv64, b: bv64)
    ensures XorBits(Half(a), Half(b)) == Half(XorBits(a, b))
  {
  }

  lemma XorOdd(a: bv64, b: bv64)
    ensures Odd(XorBits(a, b)) == (Odd(a) != Odd(b))
  {
  }

  lemma ClearHalves(a: bv64, b: bv64)
    ensures ClearBits(Half(a), Half(b)) == Half(ClearBits(a, b))
  {
  }

  lemma ClearOdd(a: bv64, b: bv64)
    ensures Odd(ClearBits(a, b)) == (!Odd(a) && Odd(b))
  {
  }

  lemma LogicHalves(logic: Logic, a: bv64, b: bv64)
    ensures Half(logic.OnWords(a, b)) == logic.OnWords(Half(a), Half(b))
    ensures Odd(logic.OnWords(a, b)) == logic.OnBits(Odd(a), Odd(b))
  {
    hide Half, Odd, AndBits, OrBits, XorBits, ClearBits;
    match logic
    case Conjunction =>
      AndHalves(a, b);
      AndOdd(a, b);
    case Disjunction =>
      OrHalves(a, b);
      OrOdd(a, b);
    case Exclusion =>
      XorHalves(a, b);
      XorOdd(a, b);
    case Clearing =>
      ClearHalves(a, b);
      ClearOdd(a, b);
  }

  lemma Digits(v: bv64)
    ensures Unsigned(v) / 2 == Unsigned(Half(v)) && (Unsigned(v) % 2 == 1) == Odd(v)
  {
    hide Unsigned, Half, Odd;
    Halves(v);
  }

  lemma LogicZero(logic: Logic, a: bv64, b: bv64)
    requires Unsigned(a) == 0 && Unsigned(b) == 0
    ensures Unsigned(logic.OnWords(a, b)) == 0
  {
    SameNumber(a, 0);
    SameNumber(b, 0);
  }

  /** The bit operations go digit by digit. */
  lemma {:induction false} LogicIs(logic: Logic, a: bv64, b: bv64)
    ensures Unsigned(logic.OnWords(a, b)) == Bitwise(logic, Unsigned(a), Unsigned(b))
    decreases Unsigned(a) + Unsigned(b)
  {
    hide Unsigned, Logic.OnWords, Half, Odd;
    if Unsigned(a) + Unsigned(b) == 0 {
      LogicZero(logic, a, b);
    } else {
      Digits(a);
      Digits(b);
      Halves(a);
      Halves(b);
      Halves(logic.OnWords(a, b));
      LogicHalves(logic, a, b);
      LogicIs(logic, Half(a), Half(b));
    }
  }
}
