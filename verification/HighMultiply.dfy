/** High half of a 64x64 bit product from 32-bit halves, on fixed-width integers with their wrap-around written out. */
module HighMultiply {
  const TWO_32 := 0x1_0000_0000
  const TWO_63 := 0x8000_0000_0000_0000
  const TWO_64 := 0x1_0000_0000_0000_0000
  const TWO_128 := TWO_64 * TWO_64

  type U64 = x: int | 0 <= x < TWO_64
  type I64 = x: int | -TWO_63 <= x < TWO_63

  /** Conversion to an unsigned and to a signed 64-bit integer. */
  function ToU64(x: int): U64 {
    x % TWO_64
  }

  function ToI64(x: int): I64 {
    if x % TWO_64 < TWO_63 then x % TWO_64 else x % TWO_64 - TWO_64
  }

  function Lower(x: int): int {
    x % TWO_32
  }

  /** Arithmetic right shift by 32. */
  function Upper(x: int): int {
    x / TWO_32
  }

  /** Unsigned times unsigned: every intermediate is unsigned. */
  function MulhuFallback(a: U64, b: U64): U64 {
    SumUnsigned(Upper(a) * Upper(b), Lower(a) * Upper(b), Upper(a) * Lower(b), Lower(a) * Lower(b))
  }

  function SumUnsigned(p11: int, p01: int, p10: int, p00: int): U64 {
    var middle := ToU64(ToU64(p10) + Upper(ToU64(p00)) + Lower(ToU64(p01)));
    ToU64(ToU64(p11) + Upper(middle) + Upper(ToU64(p01)))
  }

  /** Signed times signed: products with an upper half are signed, and so is the middle sum. */
  function MulhFallback(a: I64, b: I64): U64 {
    SumSigned(Upper(a) * Upper(b), ToI64(Lower(a) * Upper(b)), Upper(a) * Lower(b), Lower(a) * Lower(b))
  }

  /** Signed times unsigned: the product of the lower half of `a` with `b` is unsigned. */
  function MulhsuFallback(a: I64, b: U64): U64 {
    SumSigned(Upper(a) * Upper(b), ToU64(Lower(a) * Upper(b)), Upper(a) * Lower(b), Lower(a) * Lower(b))
  }

  function SumSigned(p11: int, p01: int, p10: int, p00: int): U64 {
    var middle := ToI64(ToI64(p10) + Upper(ToU64(p00)) + Lower(p01));
    ToU64(ToI64(p11) + Upper(middle) + Upper(p01))
  }

  /** The form that uses 128-bit integers. */
  function MulhWide(a: int, b: int): U64 {
    ToU64((a % TWO_128) * (b % TWO_128) % TWO_128 / TWO_64)
  }

  // ---------------------------------------------------------------- products of bounded factors

  lemma ProductBounds(x: int, y: int, lo: int, hi: int, top: int)
    requires lo <= x <= hi && 0 <= y <= top && lo <= 0 <= hi
    ensures lo * top <= x * y <= hi * top
  {
    if x >= 0 {
      assert 0 <= x * y <= x * top <= hi * top;
      assert lo * top <= 0;
    } else {
      assert (-x) * y <= (-x) * top && (-x) * top <= (-lo) * top;
    }
  }

  lemma Expansion(au: int, al: int, bu: int, bl: int)
    ensures (au * TWO_32 + al) * (bu * TWO_32 + bl) == au * bu * TWO_64 + (au * bl + al * bu) * TWO_32 + al * bl
  {
  }

  /** Schoolbook multiplication on exact integers: where the high half comes from. */
  lemma Schoolbook(p11: int, p01: int, p10: int, p00: int)
    ensures (p11 * TWO_64 + (p10 + p01) * TWO_32 + p00) / TWO_64
            == p11 + Upper(p10 + Upper(p00) + Lower(p01)) + Upper(p01)
  {
    var m := p10 + Upper(p00) + Lower(p01);
    var rest := Lower(m) * TWO_32 + Lower(p00);
    assert p11 * TWO_64 + (p10 + p01) * TWO_32 + p00 == (p11 + Upper(m) + Upper(p01)) * TWO_64 + rest;
    assert 0 <= rest < TWO_64;
  }

  lemma HighPart(a: int, b: int)
    ensures
      var p11, p01 := Upper(a) * Upper(b), Lower(a) * Upper(b);
      var p10, p00 := Upper(a) * Lower(b), Lower(a) * Lower(b);
      a * b / TWO_64 == p11 + Upper(p10 + Upper(p00) + Lower(p01)) + Upper(p01)
  {
    Expansion(Upper(a), Lower(a), Upper(b), Lower(b));
    assert a == Upper(a) * TWO_32 + Lower(a) && b == Upper(b) * TWO_32 + Lower(b);
    Schoolbook(Upper(a) * Upper(b), Lower(a) * Upper(b), Upper(a) * Lower(b), Lower(a) * Lower(b));
  }

  // ---------------------------------------------------------------- the three functions

  const TOP := (TWO_32 - 1) * (TWO_32 - 1)

  lemma SumUnsignedExact(p11: int, p01: int, p10: int, p00: int)
    requires 0 <= p11 <= TOP && 0 <= p01 <= TOP && 0 <= p10 <= TOP && 0 <= p00 <= TOP
    ensures SumUnsigned(p11, p01, p10, p00) == ToU64(p11 + Upper(p10 + Upper(p00) + Lower(p01)) + Upper(p01))
  {
    hide ToU64, Upper, Lower;
    UnsignedStays(p11);
    UnsignedStays(p01);
    UnsignedStays(p10);
    UnsignedStays(p00);
    UpperBound(p00);
    LowerBounds(p01, p01);
    UnsignedStays(p10 + Upper(p00) + Lower(p01));
  }

  lemma HalvesOfUnsigned(x: U64)
    ensures 0 <= Upper(x) < TWO_32 && 0 <= Lower(x) < TWO_32
  {
  }

  lemma HalvesOfSigned(x: I64)
    ensures -TWO_32 / 2 <= Upper(x) < TWO_32 / 2 && 0 <= Lower(x) < TWO_32
  {
  }

  lemma UnsignedHighFits(a: U64, b: U64)
    ensures 0 <= a * b / TWO_64 < TWO_64
  {
    ProductBounds(a, b, 0, TWO_64 - 1, TWO_64 - 1);
  }

  /** The middle sum, which the signed forms keep in a signed 64-bit integer. */
  function Middle(a: int, b: int): int {
    Upper(a) * Lower(b) + Upper(Lower(a) * Lower(b)) + Lower(Lower(a) * Upper(b))
  }

  /** For all inputs the unsigned form gives the exact high half, and no product or sum on the way overflows. */
  lemma MulhuExact(a: U64, b: U64)
    ensures MulhuFallback(a, b) == a * b / TWO_64
    ensures 0 <= Upper(a) * Upper(b) < TWO_64 && 0 <= Lower(a) * Upper(b) < TWO_64
    ensures 0 <= Upper(a) * Lower(b) < TWO_64 && 0 <= Lower(a) * Lower(b) < TWO_64
    ensures 0 <= Middle(a, b) < TWO_64
    ensures 0 <= Upper(a) * Upper(b) + Upper(Middle(a, b)) + Upper(Lower(a) * Upper(b)) < TWO_64
  {
    hide SumUnsigned, Upper, Lower;
    HalvesOfUnsigned(a);
    HalvesOfUnsigned(b);
    ProductBounds(Upper(a), Upper(b), 0, TWO_32 - 1, TWO_32 - 1);
    ProductBounds(Lower(a), Upper(b), 0, TWO_32 - 1, TWO_32 - 1);
    ProductBounds(Upper(a), Lower(b), 0, TWO_32 - 1, TWO_32 - 1);
    ProductBounds(Lower(a), Lower(b), 0, TWO_32 - 1, TWO_32 - 1);
    SumUnsignedExact(Upper(a) * Upper(b), Lower(a) * Upper(b), Upper(a) * Lower(b), Lower(a) * Lower(b));
    HighPart(a, b);
    UnsignedHighFits(a, b);
    UpperBound(Lower(a) * Lower(b));
    LowerBounds(Lower(a) * Upper(b), Lower(a) * Upper(b));
  }

  /** With a middle sum in range the result is right; beyond it the result is 2^32 too small. */
  lemma SumSignedExact(p11: int, p01: int, p10: int, p00: int)
    requires -TWO_63 <= p11 < TWO_63 && -TWO_63 <= p10 < TWO_63 && 0 <= p00 < TWO_64
    requires -TWO_63 <= p10 + Upper(p00) + Lower(p01) < TWO_64
    ensures
      var middle := p10 + Upper(p00) + Lower(p01);
      SumSigned(p11, p01, p10, p00) == ToU64(p11 + Upper(middle) + Upper(p01) - if middle < TWO_63 then 0 else TWO_32)
  {
    hide ToU64, ToI64, Upper, Lower;
    var middle := p10 + Upper(p00) + Lower(p01);
    InRangeStays(p11);
    InRangeStays(p10);
    UnsignedStays(p00);
    if middle < TWO_63 {
      InRangeStays(middle);
    } else {
      WrapsDown(middle);
    }
  }

  lemma WrapsDown(x: int)
    requires TWO_63 <= x < TWO_64
    ensures ToI64(x) == x - TWO_64 && Upper(x - TWO_64) == Upper(x) - TWO_32
  {
  }

  lemma MiddleBounds(a: I64, b: int)
    ensures -TWO_63 <= Middle(a, b) < TWO_64
    ensures Upper(a) != TWO_32 / 2 - 1 ==> Middle(a, b) < TWO_63
  {
    hide Upper, Lower;
    HalvesOfSigned(a);
    var hi := if Upper(a) != TWO_32 / 2 - 1 then TWO_32 / 2 - 2 else TWO_32 / 2 - 1;
    LowerBounds(a, b);
    ProductBounds(Upper(a), Lower(b), -TWO_32 / 2, hi, TWO_32 - 1);
    ProductBounds(Lower(a), Lower(b), 0, TWO_32 - 1, TWO_32 - 1);
    UpperBound(Lower(a) * Lower(b));
    LowerBounds(Lower(a) * Upper(b), b);
  }

  lemma LowerBounds(x: int, y: int)
    ensures 0 <= Lower(x) < TWO_32 && 0 <= Lower(y) < TWO_32
  {
  }

  lemma UpperBound(x: int)
    requires 0 <= x <= TOP
    ensures 0 <= Upper(x) < TWO_32
  {
  }

  lemma ToU64Differs(x: int)
    ensures ToU64(x - TWO_32) != ToU64(x)
  {
  }

  /** The signed form is exact if and only if the middle sum fits. */
  lemma MulhExactIff(a: I64, b: I64)
    ensures MulhFallback(a, b) == ToU64(a * b / TWO_64) <==> Middle(a, b) < TWO_63
  {
    hide SumSigned, Upper, Lower, ToU64, ToI64;
    HalvesOfSigned(a);
    HalvesOfSigned(b);
    ProductBounds(Upper(a), Lower(b), -TWO_32 / 2, TWO_32 / 2 - 1, TWO_32 - 1);
    ProductBounds(Upper(b), Lower(a), -TWO_32 / 2, TWO_32 / 2 - 1, TWO_32 - 1);
    ProductBounds(Lower(a), Lower(b), 0, TWO_32 - 1, TWO_32 - 1);
    SignedProduct(Upper(a), Upper(b));
    InRangeStays(Lower(a) * Upper(b));
    MiddleBounds(a, b);
    SumSignedExact(Upper(a) * Upper(b), Lower(a) * Upper(b), Upper(a) * Lower(b), Lower(a) * Lower(b));
    HighPart(a, b);
    ToU64Differs(a * b / TWO_64);
  }

  lemma InRangeStays(x: int)
    requires -TWO_63 <= x < TWO_63
    ensures ToI64(x) == x
  {
  }

  lemma SignedProduct(x: int, y: int)
    requires -TWO_32 / 2 <= x < TWO_32 / 2 && -TWO_32 / 2 <= y < TWO_32 / 2
    ensures -TWO_63 <= x * y < TWO_63
  {
    if y >= 0 {
      ProductBounds(x, y, -TWO_32 / 2, TWO_32 / 2 - 1, TWO_32 / 2);
    } else {
      ProductBounds(x, -y, -TWO_32 / 2, TWO_32 / 2 - 1, TWO_32 / 2);
      assert x * -y == -(x * y);
    }
  }

  /** The mixed form is exact if and only if the middle sum fits. */
  lemma MulhsuExactIff(a: I64, b: U64)
    ensures MulhsuFallback(a, b) == ToU64(a * b / TWO_64) <==> Middle(a, b) < TWO_63
  {
    hide SumSigned, Upper, Lower, ToU64, ToI64;
    HalvesOfSigned(a);
    HalvesOfUnsigned(b);
    ProductBounds(Upper(a), Lower(b), -TWO_32 / 2, TWO_32 / 2 - 1, TWO_32 - 1);
    ProductBounds(Upper(a), Upper(b), -TWO_32 / 2, TWO_32 / 2 - 1, TWO_32 - 1);
    ProductBounds(Lower(a), Upper(b), 0, TWO_32 - 1, TWO_32 - 1);
    ProductBounds(Lower(a), Lower(b), 0, TWO_32 - 1, TWO_32 - 1);
    UnsignedStays(Lower(a) * Upper(b));
    MiddleBounds(a, b);
    SumSignedExact(Upper(a) * Upper(b), Lower(a) * Upper(b), Upper(a) * Lower(b), Lower(a) * Lower(b));
    HighPart(a, b);
    ToU64Differs(a * b / TWO_64);
  }

  lemma UnsignedStays(x: int)
    requires 0 <= x < TWO_64
    ensures ToU64(x) == x
  {
  }

  /** Both are exact for every `b` unless the upper word of `a` is 0x7fffffff. */
  lemma ExactForUpper(a: I64, b: I64, c: U64)
    requires Upper(a) != 0x7fff_ffff
    ensures MulhFallback(a, b) == ToU64(a * b / TWO_64) && MulhsuFallback(a, c) == ToU64(a * c / TWO_64)
  {
    hide MulhFallback, MulhsuFallback, Middle, ToU64;
    MiddleBounds(a, b);
    MiddleBounds(a, c);
    MulhExactIff(a, b);
    MulhsuExactIff(a, c);
  }

  /** The largest signed number squared: the high half comes out 2^32 too small. */
  lemma MulhFallbackWrong()
    ensures MulhFallback(TWO_63 - 1, TWO_63 - 1) != ToU64((TWO_63 - 1) * (TWO_63 - 1) / TWO_64)
  {
    hide MulhFallback, ToU64;
    MulhExactIff(TWO_63 - 1, TWO_63 - 1);
    assert Upper(TWO_63 - 1) == 0x7fff_ffff && Lower(TWO_63 - 1) == 0xffff_ffff;
    assert Upper(0xffff_ffff * 0xffff_ffff) == 0xffff_fffe && Lower(0xffff_ffff * 0x7fff_ffff) == 0x8000_0001;
  }

  /** The same for the mixed form, at the largest signed number and 0x1_ffff_ffff. */
  lemma MulhsuFallbackWrong()
    ensures MulhsuFallback(TWO_63 - 1, 0x1_ffff_ffff) != ToU64((TWO_63 - 1) * 0x1_ffff_ffff / TWO_64)
  {
    hide MulhsuFallback, ToU64;
    MulhsuExactIff(TWO_63 - 1, 0x1_ffff_ffff);
    assert Upper(TWO_63 - 1) == 0x7fff_ffff && Lower(TWO_63 - 1) == 0xffff_ffff;
    assert Upper(0x1_ffff_ffff) == 1 && Lower(0x1_ffff_ffff) == 0xffff_ffff;
    assert Upper(0xffff_ffff * 0xffff_ffff) == 0xffff_fffe;
  }

  /** The 128-bit form is exact for all signed, unsigned and mixed operands. */
  lemma WideExact(a: int, b: int)
    ensures MulhWide(a, b) == ToU64(a * b / TWO_64)
  {
    WideProduct(a, b);
    WideHalf(a * b);
  }

  lemma WideProduct(a: int, b: int)
    ensures (a % TWO_128) * (b % TWO_128) % TWO_128 == a * b % TWO_128
  {
    var i, j := a / TWO_128, b / TWO_128;
    var x, y := a % TWO_128, b % TWO_128;
    Spread(i, x, j, y, TWO_128);
    MultipleDropped(x * y, i * y + x * j + i * j * TWO_128);
  }

  lemma Spread(i: int, x: int, j: int, y: int, n: int)
    ensures (i * n + x) * (j * n + y) == x * y + (i * y + x * j + i * j * n) * n
  {
  }

  lemma MultipleDropped(v: int, k: int)
    ensures (v + k * TWO_128) % TWO_128 == v % TWO_128
  {
  }

  lemma WideHalf(x: int)
    ensures x % TWO_128 / TWO_64 == x / TWO_64 % TWO_64
  {
  }
}
