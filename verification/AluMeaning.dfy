/** What the ALU computes, on integers: neither flags nor operations on bits are mentioned in the references. */
module AluMeaning {
  import opened Words
  import opened Numbers
  import opened SignedNumbers
  import HighMultiply
  import opened Alu

  // ---------------------------------------------------------------- references

  /** The result, before it is cut to `w` bits, of an operation on unsigned numbers of `w` bits. */
  function Exact(op: AluOp, modified: bool, w: nat, a: nat, b: nat): int
    requires w > 0
  {
    match op
    case ADD => if modified then a - b else a + b
    case SLL => a * Pow2(b % w)
    case SLT => Digit(SignedOf(w, a) < SignedOf(w, b))
    case SLTU => Digit(a < b)
    case XOR => Bitwise(Exclusion, a, b)
    case SR => if modified then SignedOf(w, a) / Pow2(b % w) else a / Pow2(b % w)
    case OR => Bitwise(Disjunction, a, b)
    case AND => Bitwise(if modified then Clearing else Conjunction, a, b)
  }

  /** Division that rounds toward zero: the remainder has the sign of the dividend. */
  predicate Divides(a: int, b: int, q: int, r: int) {
    a == q * b + r && Magnitude(r) < Magnitude(b) && (r == 0 || (r < 0) == (a < 0))
  }

  /** What a multiplication or division of `w`-bit numbers may result in, as a signed number. */
  ghost predicate Multiplies(op: MulOp, w: nat, a: nat, b: nat, x: int)
    requires w > 0
  {
    var sa, sb := SignedOf(w, a), SignedOf(w, b);
    match op
    case MUL => x == SignedOf(w, a * b)
    case MULH => x == SignedOf(w, sa * sb / Pow2(w))
    case MULHSU => x == SignedOf(w, sa * b / Pow2(w))
    case MULHU => x == SignedOf(w, a * b / Pow2(w))
    case DIV =>
      if sb == 0 then x == -1
      else if sa + Pow2(w - 1) == 0 && sb == -1 then x == sa
      else exists r :: Divides(sa, sb, x, r)
    case DIVU => if b == 0 then x == -1 else exists q, r :: x == SignedOf(w, q) && Divides(a, b, q, r)
    case REM => if sb == 0 then x == sa else exists q :: Divides(sa, sb, q, x)
    case REMU => if b == 0 then x == SignedOf(w, a) else exists q, r :: x == SignedOf(w, r) && Divides(a, b, q, r)
  }

  // ---------------------------------------------------------------- basic operations

  lemma AmountShifts(b: bv64)
    ensures ShiftedRight(b << 58, 58) == b & 63
  {
  }

  lemma Amount32Shifts(b: bv64)
    ensures ShiftedRight(b << 59, 59) == b & 31
  {
  }

  lemma ToTop(b: bv64)
    ensures ShiftedLeft(b, 58) == b << 58 && ShiftedLeft(b, 59) == b << 59
  {
  }

  lemma AmountNumber(b: bv64)
    ensures Unsigned(b & 63) == Amount(b) as nat
  {
  }

  lemma Amount32Number(b: bv64)
    ensures Unsigned(b & 31) == Amount32(b) as nat
  {
  }

  lemma AmountIs(b: bv64)
    ensures Amount(b) as nat == Unsigned(b) % 64 && Amount32(b) as nat == Unsigned(b) % 32
  {
    hide Unsigned, ShiftedLeft, ShiftedRight, Amount, Amount32;
    AmountShifts(b);
    Amount32Shifts(b);
    ToTop(b);
    AmountNumber(b);
    Amount32Number(b);
    assert Pow2(6) == 64 && Pow2(5) == 32;
    LowPartIs(b, 58, 6);
    LowPartIs(b, 59, 5);
  }

  lemma TruthIs(c: bool)
    ensures Unsigned(FromBool(c)) == Digit(c)
  {
  }

  lemma Stays(n: int)
    ensures 0 <= n < TWO_64 ==> n % TWO_64 == n
  {
  }

  lemma Operate64Is(op: AluOp, modified: bool, a: bv64, b: bv64)
    ensures Unsigned(Operate64(op, modified, a, b)) == Exact(op, modified, 64, Unsigned(a), Unsigned(b)) % TWO_64
  {
    hide Unsigned, Signed, ShiftedLeft, ShiftedRight, ArithmeticShiftRight, Amount, Difference, Add, Less, XorBits,
      OrBits, AndBits, ClearBits, FromBool, SignedOf, Bitwise, Pow2;
    AmountIs(b);
    Stays(Exact(op, modified, 64, Unsigned(a), Unsigned(b)));
    match op
    case ADD =>
      SumIs(a, b);
      DifferenceIs(a, b);
    case SLL => ShiftLeftIs(a, Amount(b));
    case SLT =>
      SignedIs(a);
      SignedIs(b);
      TruthIs(Signed(a) < Signed(b));
    case SLTU =>
      LessIs(a, b);
      TruthIs(Less(a, b));
    case XOR =>
      LogicIs(Exclusion, a, b);
      Bounded(XorBits(a, b));
    case SR =>
      SignedIs(a);
      ArithmeticIs(a, Amount(b));
      SignedModulo(ArithmeticShiftRight(a, Amount(b)));
      ShiftRightIs(a, Amount(b));
      Bounded(ShiftedRight(a, Amount(b)));
    case OR =>
      LogicIs(Disjunction, a, b);
      Bounded(OrBits(a, b));
    case AND =>
      LogicIs(Conjunction, a, b);
      LogicIs(Clearing, a, b);
      Bounded(AndBits(a, b));
      Bounded(ClearBits(a, b));
  }

  const TWO_32 := 0x1_0000_0000

  lemma Modulo32(x: int)
    ensures x % TWO_64 % TWO_32 == x % TWO_32
  {
  }

  /** The same on the low halves, of which the low half of the result counts. */
  lemma OperateLowIs(op: AluOp, modified: bool, a: bv64, b: bv64)
    requires Unsigned(a) < TWO_32 && Unsigned(b) < TWO_32
    ensures Unsigned(OperateLow(op, modified, a, b)) % TWO_32
            == Exact(op, modified, 32, Unsigned(a), Unsigned(b)) % TWO_32
  {
    hide Unsigned, Signed, ShiftedLeft, ShiftedRight, ArithmeticShiftRight, Amount32, Difference, Add, Less, XorBits,
      OrBits, AndBits, ClearBits, FromBool, SignedOf, Bitwise, Pow2, SignExtend32;
    AmountIs(b);
    Modulo32(Exact(op, modified, 32, Unsigned(a), Unsigned(b)));
    match op
    case ADD =>
      SumIs(a, b);
      DifferenceIs(a, b);
    case SLL => ShiftLeftIs(a, Amount32(b));
    case SLT =>
      SignExtendIs(a);
      SignExtendIs(b);
      TruthIs(Signed(SignExtend32(a)) < Signed(SignExtend32(b)));
    case SLTU =>
      LessIs(a, b);
      TruthIs(Less(a, b));
    case XOR => LogicIs(Exclusion, a, b);
    case SR =>
      SignExtendIs(a);
      ArithmeticIs(SignExtend32(a), Amount32(b));
      SignedModulo(ArithmeticShiftRight(SignExtend32(a), Amount32(b)));
      ShiftRightIs(a, Amount32(b));
    case OR => LogicIs(Disjunction, a, b);
    case AND =>
      LogicIs(Conjunction, a, b);
      LogicIs(Clearing, a, b);
  }

  // ---------------------------------------------------------------- multiplication and division

  lemma SignedSame(w: nat, x: int, y: int)
    requires x % Pow2(w) == y % Pow2(w)
    ensures SignedOf(w, x) == SignedOf(w, y)
  {
  }

  lemma SignedOfInt(x: int)
    ensures Signed(OfInt(x)) == SignedOf(64, x)
  {
    hide Unsigned, Signed, OfInt, Pow2;
    SignedIs(OfInt(x));
    OfIntIs(x);
    Pow2Bytes();
    SignedSame(64, x, x % TWO_64);
  }

  lemma WideIs(a: int, b: int)
    ensures Signed(OfInt(HighMultiply.MulhWide(a, b))) == SignedOf(64, a * b / Pow2(64))
  {
    hide Signed, OfInt, HighMultiply.MulhWide, Pow2;
    Pow2Bytes();
    HighMultiply.WideExact(a, b);
    SignedOfInt(HighMultiply.MulhWide(a, b));
    SignedSame(64, HighMultiply.MulhWide(a, b), a * b / TWO_64);
  }

  lemma Fits(w: nat, x: int)
    requires w > 0 && -(Pow2(w - 1) as int) <= x < Pow2(w - 1)
    ensures SignedOf(w, x) == x
  {
    if x < 0 {
      QuotientIs(x, Pow2(w), -1, x + Pow2(w));
    } else {
      QuotientIs(x, Pow2(w), 0, x);
    }
  }

  lemma SignedRange(w: nat, x: int)
    requires w > 0
    ensures -(Pow2(w - 1) as int) <= SignedOf(w, x) < Pow2(w - 1)
  {
  }

  lemma Doubled(q: nat, b: nat)
    requires b > 1
    ensures q * b >= 2 * q
  {
    assert q * b == q * (b - 2) + 2 * q;
  }

  lemma QuotientOfMagnitudes(a: nat, b: nat)
    requires b > 0
    ensures a == a / b * b + a % b && 0 <= a / b <= a && a % b < b && (b > 1 ==> 2 * (a / b) <= a)
  {
    SmallerQuotient(a, b);
    var q, r := a / b, a % b;
    assert a == q * b + r;
    if b > 1 {
      Doubled(q, b);
    }
  }

  lemma TruncatingDivides(a: int, b: int)
    requires b != 0
    ensures Divides(a, b, TruncatingDiv(a, b), TruncatingRem(a, b))
    ensures Magnitude(TruncatingDiv(a, b)) <= Magnitude(a)
    ensures Magnitude(b) > 1 ==> 2 * Magnitude(TruncatingDiv(a, b)) <= Magnitude(a)
  {
    var x, y := Magnitude(a), Magnitude(b);
    QuotientOfMagnitudes(x, y);
    SignsOfProduct(x / y, y);
  }

  lemma SignsOfProduct(q: int, y: int)
    ensures -q * y == -(q * y) && q * -y == -(q * y) && -q * -y == q * y
  {
  }

  lemma QuotientRange(a: int, b: int, h: int)
    requires b != 0 && h > 0 && -h <= a < h && !(a == -h && b == -1)
    ensures -h <= TruncatingDiv(a, b) < h
  {
    TruncatingDivides(a, b);
    if Magnitude(b) == 1 {
      assert a / 1 == a;
    }
  }

  lemma RemainderRange(a: int, b: int, h: int)
    requires b != 0 && -h <= a < h
    ensures -h <= TruncatingRem(a, b) < h
  {
    QuotientOfMagnitudes(Magnitude(a), Magnitude(b));
  }

  lemma OverflowQuotient(h: int)
    requires h > 0
    ensures TruncatingDiv(-h, -1) == h
  {
  }

  lemma UnsignedDivides(a: nat, b: nat)
    requires b > 0
    ensures Divides(a, b, a / b, a % b)
  {
    QuotientOfMagnitudes(a, b);
  }

  /** The quotient and remainder of signed numbers of `w` bits, cut to `w` bits. */
  lemma SignedDivision(w: nat, sa: int, sb: int)
    requires w > 0 && sb != 0 && -(Pow2(w - 1) as int) <= sa < Pow2(w - 1)
    ensures
      var x := SignedOf(w, TruncatingDiv(sa, sb));
      if sa + Pow2(w - 1) == 0 && sb == -1 then x == sa else Divides(sa, sb, x, TruncatingRem(sa, sb))
    ensures SignedOf(w, TruncatingRem(sa, sb)) == TruncatingRem(sa, sb)
    ensures Divides(sa, sb, TruncatingDiv(sa, sb), TruncatingRem(sa, sb))
  {
    hide TruncatingDiv, TruncatingRem;
    var h := Pow2(w - 1);
    TruncatingDivides(sa, sb);
    RemainderRange(sa, sb, h);
    Fits(w, TruncatingRem(sa, sb));
    if sa + h == 0 && sb == -1 {
      OverflowQuotient(h);
      QuotientIs(h, 2 * h, 0, h);
    } else {
      QuotientRange(sa, sb, h);
      Fits(w, TruncatingDiv(sa, sb));
    }
  }

  lemma MinusOne()
    ensures Signed(OfInt(-1)) == -1
  {
    hide Signed, OfInt;
    SignedOfInt(-1);
    Pow2Signs();
    Fits(64, -1);
  }

  lemma LowProductIs(a: bv64, b: bv64)
    ensures Signed(Product(a, b)) == SignedOf(64, Unsigned(a) * Unsigned(b))
  {
    hide Unsigned, Signed, Pow2, Product;
    SignedIs(Product(a, b));
    ProductIs(a, b);
    Pow2Bytes();
    SignedSame(64, Unsigned(a) * Unsigned(b), Unsigned(Product(a, b)));
  }

  lemma Products64(op: MulOp, a: bv64, b: bv64)
    requires op in {MUL, MULH, MULHSU, MULHU}
    ensures Multiplies(op, 64, Unsigned(a), Unsigned(b), Signed(Multiply64(op, a, b)))
  {
    hide Unsigned, Signed, OfInt, SignedOf, Pow2, Product, HighMultiply.MulhWide;
    SignedIs(a);
    SignedIs(b);
    match op
    case MUL => LowProductIs(a, b);
    case MULH => WideIs(Signed(a), Signed(b));
    case MULHSU => WideIs(Signed(a), Unsigned(b));
    case MULHU => WideIs(Unsigned(a), Unsigned(b));
  }

  lemma Quotients64(op: MulOp, a: bv64, b: bv64)
    requires op == DIV || op == DIVU
    ensures Multiplies(op, 64, Unsigned(a), Unsigned(b), Signed(Multiply64(op, a, b)))
  {
    hide Unsigned, Signed, OfInt, SignedOf, Pow2, TruncatingDiv, TruncatingRem, Divides;
    var ua, ub, sa, sb := Unsigned(a), Unsigned(b), Signed(a), Signed(b);
    SignedIs(a);
    SignedIs(b);
    SignedRange(64, ua);
    MinusOne();
    if op == DIV && sb != 0 {
      SignedOfInt(TruncatingDiv(sa, sb));
      SignedDivision(64, sa, sb);
    } else if op == DIVU && ub != 0 {
      SignedOfInt(ua / ub);
      UnsignedDivides(ua, ub);
    }
  }

  lemma Remainders64(op: MulOp, a: bv64, b: bv64)
    requires op == REM || op == REMU
    ensures Multiplies(op, 64, Unsigned(a), Unsigned(b), Signed(Multiply64(op, a, b)))
  {
    hide Unsigned, Signed, OfInt, SignedOf, Pow2, TruncatingDiv, TruncatingRem, Divides;
    var ua, ub, sa, sb := Unsigned(a), Unsigned(b), Signed(a), Signed(b);
    SignedIs(a);
    SignedIs(b);
    SignedRange(64, ua);
    if op == REM && sb != 0 {
      SignedOfInt(TruncatingRem(sa, sb));
      SignedDivision(64, sa, sb);
    } else if op == REMU && ub != 0 {
      SignedOfInt(ua % ub);
      UnsignedDivides(ua, ub);
    }
  }

  lemma Multiply64Is(op: MulOp, a: bv64, b: bv64)
    ensures Multiplies(op, 64, Unsigned(a), Unsigned(b), Signed(Multiply64(op, a, b)))
  {
    hide *;
    match op
    case DIV => Quotients64(op, a, b);
    case DIVU => Quotients64(op, a, b);
    case REM => Remainders64(op, a, b);
    case REMU => Remainders64(op, a, b);
    case _ => Products64(op, a, b);
  }

  lemma SignedOfInt32(x: int)
    ensures SignedOf(32, Unsigned(OfInt(x))) == SignedOf(32, x)
  {
    hide Unsigned, OfInt, Pow2;
    OfIntIs(x);
    Pow2Bytes();
    Modulo32(x);
    SignedSame(32, x, Unsigned(OfInt(x)));
  }

  lemma MinusOne32()
    ensures SignedOf(32, Unsigned(OfInt(-1))) == -1
  {
    hide Unsigned, OfInt;
    SignedOfInt32(-1);
    Pow2Signs();
    Fits(32, -1);
  }

  lemma UpperWord(x: int)
    ensures x % TWO_64 / TWO_32 % TWO_32 == x / TWO_32 % TWO_32
  {
  }

  lemma WrappedFactors(x: int, y: int)
    ensures (x % TWO_64) * (y % TWO_64) % TWO_64 == x * y % TWO_64
  {
    WrappedFactor(x, y % TWO_64);
    WrappedFactor(y, x);
    assert (y % TWO_64) * x == x * (y % TWO_64) && y * x == x * y;
  }

  /** The upper half of a product of words that stand for `x` and `y` modulo 2^64. */
  lemma UpperProductIs(a: bv64, b: bv64, x: int, y: int)
    requires Unsigned(a) == x % TWO_64 && Unsigned(b) == y % TWO_64
    ensures SignedOf(32, Unsigned(ShiftedRight(Product(a, b), 32))) == SignedOf(32, x * y / Pow2(32))
  {
    hide Unsigned, ShiftedRight, Product, Pow2;
    Pow2Bytes();
    ProductIs(a, b);
    ShiftRightIs(Product(a, b), 32);
    WrappedFactors(x, y);
    UpperWord(x * y);
    SignedSame(32, Unsigned(ShiftedRight(Product(a, b), 32)), x * y / TWO_32);
  }

  lemma LowProductIs32(a: bv64, b: bv64)
    ensures SignedOf(32, Unsigned(Product(a, b))) == SignedOf(32, Unsigned(a) * Unsigned(b))
  {
    hide Unsigned, Product, Pow2;
    Pow2Bytes();
    ProductIs(a, b);
    Modulo32(Unsigned(a) * Unsigned(b));
    SignedSame(32, Unsigned(a) * Unsigned(b), Unsigned(Product(a, b)));
  }

  lemma Products32(op: MulOp, a: bv64, b: bv64)
    requires op in {MUL, MULH, MULHSU, MULHU} && Unsigned(a) < TWO_32 && Unsigned(b) < TWO_32
    ensures Multiplies(op, 32, Unsigned(a), Unsigned(b), SignedOf(32, Unsigned(MultiplyLow(op, a, b))))
  {
    hide Unsigned, Signed, OfInt, SignedOf, Pow2, Product, ShiftedRight, SignExtend32;
    var sa, sb := SignExtend32(a), SignExtend32(b);
    SignExtendIs(a);
    SignExtendIs(b);
    SignedModulo(sa);
    SignedModulo(sb);
    match op
    case MUL => LowProductIs32(a, b);
    case MULH => UpperProductIs(sa, sb, Signed(sa), Signed(sb));
    case MULHSU => UpperProductIs(sa, b, Signed(sa), Unsigned(b));
    case MULHU => UpperProductIs(a, b, Unsigned(a), Unsigned(b));
  }

  lemma SignedQuotient32(a: bv64, b: bv64)
    requires Unsigned(a) < TWO_32 && Unsigned(b) < TWO_32
    ensures Multiplies(DIV, 32, Unsigned(a), Unsigned(b), SignedOf(32, Unsigned(MultiplyLow(DIV, a, b))))
  {
    hide Unsigned, Signed, OfInt, SignedOf, Pow2, TruncatingDiv, TruncatingRem, Divides, SignExtend32;
    var sa, sb := Signed(SignExtend32(a)), Signed(SignExtend32(b));
    SignExtendIs(a);
    SignExtendIs(b);
    SignedRange(32, Unsigned(a));
    MinusOne32();
    if sb != 0 {
      SignedOfInt32(TruncatingDiv(sa, sb));
      SignedDivision(32, sa, sb);
    }
  }

  lemma UnsignedQuotient32(a: bv64, b: bv64)
    requires Unsigned(a) < TWO_32 && Unsigned(b) < TWO_32
    ensures Multiplies(DIVU, 32, Unsigned(a), Unsigned(b), SignedOf(32, Unsigned(MultiplyLow(DIVU, a, b))))
  {
    hide Unsigned, Signed, OfInt, SignedOf, Pow2, Divides;
    MinusOne32();
    if Unsigned(b) != 0 {
      SignedOfInt32(Unsigned(a) / Unsigned(b));
      UnsignedDivides(Unsigned(a), Unsigned(b));
    }
  }

  lemma Remainders32(op: MulOp, a: bv64, b: bv64)
    requires (op == REM || op == REMU) && Unsigned(a) < TWO_32 && Unsigned(b) < TWO_32
    ensures Multiplies(op, 32, Unsigned(a), Unsigned(b), SignedOf(32, Unsigned(MultiplyLow(op, a, b))))
  {
    hide Unsigned, Signed, OfInt, SignedOf, Pow2, TruncatingDiv, TruncatingRem, Divides, SignExtend32;
    var ua, ub, sa, sb := Unsigned(a), Unsigned(b), Signed(SignExtend32(a)), Signed(SignExtend32(b));
    SignExtendIs(a);
    SignExtendIs(b);
    SignedRange(32, ua);
    if op == REM && sb != 0 {
      SignedOfInt32(TruncatingRem(sa, sb));
      SignedDivision(32, sa, sb);
    } else if op == REMU && ub != 0 {
      SignedOfInt32(ua % ub);
      UnsignedDivides(ua, ub);
    }
  }

  lemma MultiplyLowIs(op: MulOp, a: bv64, b: bv64)
    requires Unsigned(a) < TWO_32 && Unsigned(b) < TWO_32
    ensures Multiplies(op, 32, Unsigned(a), Unsigned(b), SignedOf(32, Unsigned(MultiplyLow(op, a, b))))
  {
    hide *;
    match op
    case DIV => SignedQuotient32(a, b);
    case DIVU => UnsignedQuotient32(a, b);
    case REM => Remainders32(op, a, b);
    case REMU => Remainders32(op, a, b);
    case _ => Products32(op, a, b);
  }

  // ---------------------------------------------------------------- either width

  function Width(wOperation: bool): nat {
    if wOperation then 32 else 64
  }

  function LowNumber(w: nat, v: bv64): nat {
    Unsigned(v) % Pow2(w)
  }

  lemma LowNumbers(v: bv64)
    ensures LowNumber(32, v) == Unsigned(Low32(v)) < TWO_32 && LowNumber(64, v) == Unsigned(v)
  {
    hide Unsigned, Low32, Pow2;
    LowIs(v);
    Bounded(v);
    Pow2Bytes();
  }

  /** The basic operations at either width, as signed numbers. */
  lemma BasicIs(op: AluOp, wOperation: bool, modified: bool, a: bv64, b: bv64)
    ensures
      var w := Width(wOperation);
      Signed(Operate(BasicAlu(op), wOperation, modified, a, b))
      == SignedOf(w, Exact(op, modified, w, LowNumber(w, a), LowNumber(w, b)))
  {
    hide Unsigned, Signed, SignedOf, Operate64, OperateLow, Low32, SignExtend32, Exact, LowNumber, Pow2;
    LowNumbers(a);
    LowNumbers(b);
    Pow2Bytes();
    if wOperation {
      var x := OperateLow(op, modified, Low32(a), Low32(b));
      var n := Exact(op, modified, 32, LowNumber(32, a), LowNumber(32, b));
      OperateLowIs(op, modified, Low32(a), Low32(b));
      SignExtendIs(x);
      SignedSame(32, Unsigned(x), n);
    } else {
      var x, n := Operate64(op, modified, a, b), Exact(op, modified, 64, LowNumber(64, a), LowNumber(64, b));
      Operate64Is(op, modified, a, b);
      SignedIs(x);
      SignedSame(64, Unsigned(x), n);
    }
  }

  /** Multiplication and division at either width. */
  lemma MultiplierIs(op: MulOp, wOperation: bool, modified: bool, a: bv64, b: bv64)
    ensures
      var w := Width(wOperation);
      Multiplies(op, w, LowNumber(w, a), LowNumber(w, b), Signed(Operate(Multiplier(op), wOperation, modified, a, b)))
  {
    hide Unsigned, Signed, SignedOf, Multiply64, MultiplyLow, Low32, SignExtend32, Multiplies, LowNumber, Pow2;
    LowNumbers(a);
    LowNumbers(b);
    if wOperation {
      MultiplyLowIs(op, Low32(a), Low32(b));
      SignExtendIs(MultiplyLow(op, Low32(a), Low32(b)));
    } else {
      Multiply64Is(op, a, b);
    }
  }

  function XlenBits(xlen: Xlen): nat {
    match xlen
    case Xlen32 => 32
    case Xlen64 => 64
  }

  /** A register of the machine's width shows a result modulo 2^XLEN. */
  lemma CutIs(xlen: Xlen, v: bv64)
    ensures Unsigned(TruncateBits(xlen, v)) == Signed(v) % Pow2(XlenBits(xlen))
  {
    hide Unsigned, Signed, Low32, Pow2;
    Pow2Bytes();
    SignedModulo(v);
    LowIs(v);
    Modulo32(Signed(v));
  }
}
