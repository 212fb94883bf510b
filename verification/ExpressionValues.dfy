/**
 * The value of an expression of the grammar, level by level, on integers modulo 2^64. Parsing the text of the
 * expression and evaluating the tree gives this value.
 */
module ExpressionValues {
  import opened Words
  import opened Numbers
  import opened SignedNumbers
  import opened Expressions
  import opened Grammar

  // ---------------------------------------------------------------- values as integers

  function Wrapped(x: int): nat {
    x % TWO_64
  }

  /** Division that rounds toward zero. */
  function Quotient(a: int, b: int): int
    requires b != 0
  {
    if a >= 0 then a / b else -(-a / b)
  }

  /** What %hi, %lo, %pcrel_hi and %pcrel_lo make of an address, for an instruction at `pc`. */
  function Relocated(m: Modifier, x: int, pc: int): int {
    match m
    case Hi => (x + 0x800) / 0x1000 % 0x10_0000
    case Lo => SignedOf(12, x)
    case PcrelHi => (x - pc) / 0x1000 % 0x10_0000 + (x - pc) / 0x800 % 2
    case PcrelLo => SignedOf(12, x - pc + 4)
  }

  function Value(e: OrExpr, symbols: Symbols, pc: nat): Result<nat> {
    match e
    case BitOnly(b) => BitValue(b, symbols, pc)
    case Either(l, r) =>
      var x :- Value(l, symbols, pc);
      var y :- BitValue(r, symbols, pc);
      Ok(Bitwise(Disjunction, x, y))
  }

  function BitValue(e: BitExpr, symbols: Symbols, pc: nat): Result<nat> {
    match e
    case SumOnly(s) => SumValue(s, symbols, pc)
    case Both(l, r) =>
      var x :- BitValue(l, symbols, pc);
      var y :- SumValue(r, symbols, pc);
      Ok(Bitwise(Conjunction, x, y))
    case Differing(l, r) =>
      var x :- BitValue(l, symbols, pc);
      var y :- SumValue(r, symbols, pc);
      Ok(Bitwise(Exclusion, x, y))
  }

  function SumValue(e: SumExpr, symbols: Symbols, pc: nat): Result<nat> {
    match e
    case ProductOnly(p) => ProductValue(p, symbols, pc)
    case Added(l, r) =>
      var x :- SumValue(l, symbols, pc);
      var y :- ProductValue(r, symbols, pc);
      Ok(Wrapped(x + y))
    case Subtracted(l, r) =>
      var x :- SumValue(l, symbols, pc);
      var y :- ProductValue(r, symbols, pc);
      Ok(Wrapped(x - y))
  }

  /** Division is of the signed numbers; there is none by zero. */
  function ProductValue(e: ProductExpr, symbols: Symbols, pc: nat): Result<nat> {
    match e
    case FactorOnly(f) => FactorValue(f, symbols, pc)
    case Multiplied(l, r) =>
      var x :- ProductValue(l, symbols, pc);
      var y :- FactorValue(r, symbols, pc);
      Ok(Wrapped(x * y))
    case Divided(l, r) =>
      var x :- ProductValue(l, symbols, pc);
      var y :- FactorValue(r, symbols, pc);
      if SignedOf(64, y) == 0 then Failed else Ok(Wrapped(Quotient(SignedOf(64, x), SignedOf(64, y))))
  }

  function FactorValue(f: Factor, symbols: Symbols, pc: nat): Result<nat> {
    match f
    case Named(Number(v)) => Ok(Unsigned(v))
    case Named(Symbol(n)) => if n in symbols then Ok(Unsigned(symbols[n])) else Failed
    case Parenthesised(e) => Value(e, symbols, pc)
    case Kept(g) => FactorValue(g, symbols, pc)
    case Negated(g) =>
      var x :- FactorValue(g, symbols, pc);
      Ok(Wrapped(0 - x))
    case Complemented(g) =>
      var x :- FactorValue(g, symbols, pc);
      Ok(Wrapped(-1 - x))
    case Modified(m, g) =>
      var x :- FactorValue(g, symbols, pc);
      Ok(Wrapped(Relocated(m, x, pc)))
  }

  // ---------------------------------------------------------------- operators on words and on integers

  lemma UpwardQuotient(a: nat, b: int)
    requires b < 0
    ensures a / b == -(a / -b)
  {
    var p, q, r := -b, a / b, a % b;
    assert a == b * q + r && b * q == p * -q;
    QuotientIs(a, p, -q, r);
  }

  lemma QuotientTruncates(a: int, b: int)
    requires b != 0
    ensures TruncatingDiv(a, b) == Quotient(a, b)
  {
    if b < 0 {
      UpwardQuotient(Magnitude(a), b);
    }
  }

  lemma QuotientWords(a: bv64, b: bv64)
    ensures Signed(b) == SignedOf(64, Unsigned(b))
    ensures Signed(b) != 0 ==>
              Unsigned(OfInt(TruncatingDiv(Signed(a), Signed(b))))
              == Quotient(SignedOf(64, Unsigned(a)), Signed(b)) % TWO_64
  {
    hide Signed, Unsigned, OfInt, TruncatingDiv, Quotient, SignedOf;
    SignedIs(a);
    SignedIs(b);
    if Signed(b) != 0 {
      QuotientTruncates(Signed(a), Signed(b));
      OfIntIs(TruncatingDiv(Signed(a), Signed(b)));
    }
  }

  lemma Upper20Shifts(a: bv64)
    ensures ShiftedRight((a >> 12) << 44, 44) == Upper20(a)
  {
  }

  lemma Bit11Shifts(a: bv64)
    ensures ShiftedRight((a >> 11) << 63, 63) == Bit11(a)
  {
  }

  lemma PositiveLower12(a: bv64)
    ensures a & 0x800 == 0 ==> Lower12(a) == a & 0xfff
  {
  }

  lemma NegativeLower12(a: bv64)
    ensures a & 0x800 != 0 ==> Lower12(a) == a | 0xffff_ffff_ffff_f000
  {
  }

  lemma ShiftedLower12(a: bv64)
    ensures ArithmeticShiftRight(a << 52, 52) == if a & 0x800 == 0 then a & 0xfff else a | 0xffff_ffff_ffff_f000
  {
  }

  lemma Lower12Shifts(a: bv64)
    ensures ArithmeticShiftRight(a << 52, 52) == Lower12(a)
  {
    hide ArithmeticShiftRight, Lower12;
    PositiveLower12(a);
    NegativeLower12(a);
    ShiftedLower12(a);
  }

  lemma Shifts(a: bv64)
    ensures ShiftedRight(a, 12) == a >> 12 && ShiftedRight(a, 11) == a >> 11
    ensures ShiftedLeft(a, 44) == a << 44 && ShiftedLeft(a, 63) == a << 63 && ShiftedLeft(a, 52) == a << 52
  {
  }

  lemma Powers()
    ensures Pow2(11) == 0x800 && Pow2(12) == 0x1000 && Pow2(20) == 0x10_0000 && Pow2(1) == 2
  {
    assert Pow2(4) == 16;
    Pow2Adds(4, 8);
    Pow2Bytes();
    Pow2Adds(12, 8);
  }

  lemma Upper20Is(a: bv64)
    ensures Unsigned(Upper20(a)) == Unsigned(a) / 0x1000 % 0x10_0000
  {
    hide Unsigned, ShiftedLeft, ShiftedRight, Upper20, Pow2;
    Shifts(a);
    Shifts(a >> 12);
    Upper20Shifts(a);
    Powers();
    ShiftRightIs(a, 12);
    LowPartIs(a >> 12, 44, 20);
  }

  lemma Bit11Is(a: bv64)
    ensures Unsigned(Bit11(a)) == Unsigned(a) / 0x800 % 2
  {
    hide Unsigned, ShiftedLeft, ShiftedRight, Bit11, Pow2;
    Shifts(a);
    Shifts(a >> 11);
    Bit11Shifts(a);
    Powers();
    ShiftRightIs(a, 11);
    LowPartIs(a >> 11, 63, 1);
  }

  lemma Lower12Is(a: bv64)
    ensures Unsigned(Lower12(a)) == SignedOf(12, Unsigned(a)) % TWO_64
  {
    hide Unsigned, Signed, ShiftedLeft, ArithmeticShiftRight, Lower12, SignedOf;
    Shifts(a);
    Lower12Shifts(a);
    ExtendedIs(a, 52, 12);
    SignedModulo(Lower12(a));
  }

  lemma SmallWords()
    ensures Unsigned(0x800) == 0x800 && Unsigned(4) == 4
  {
  }

  /** The `m` values above `p` of a number do not depend on its multiples of 2^64. */
  lemma PartWraps(n: int, p: int, m: int, s: int)
    requires p > 0 && m > 0 && p * (m * s) == TWO_64
    ensures n % TWO_64 / p % m == n / p % m
  {
    var t, r := n / TWO_64, n % TWO_64;
    var h := r / p;
    assert p * (m * s * t + h) == p * (m * s) * t + p * h;
    QuotientIs(n, p, m * s * t + h, r % p);
    assert m * (s * t + h / m) == m * s * t + m * (h / m);
    QuotientIs(n / p, m, s * t + h / m, h % m);
  }

  lemma Upper20Wraps(n: int)
    ensures n % TWO_64 / 0x1000 % 0x10_0000 == n / 0x1000 % 0x10_0000
    ensures n % TWO_64 / 0x800 % 2 == n / 0x800 % 2
  {
    PartWraps(n, 0x1000, 0x10_0000, 0x1_0000_0000);
    PartWraps(n, 0x800, 2, 0x10_0000_0000_0000);
  }

  lemma Lower12Wraps(n: int)
    ensures SignedOf(12, n % TWO_64) == SignedOf(12, n)
  {
    hide Pow2;
    Powers();
  }

  lemma HiIs(a: bv64)
    ensures Unsigned(Upper20(Add(a, 0x800))) == (Unsigned(a) + 0x800) / 0x1000 % 0x10_0000
  {
    hide Unsigned, Add, Upper20;
    SmallWords();
    SumIs(a, 0x800);
    Upper20Is(Add(a, 0x800));
    Upper20Wraps(Unsigned(a) + 0x800);
  }

  lemma PcrelHiIs(a: bv64, b: bv64)
    ensures
      var d := Unsigned(a) - Unsigned(b);
      Unsigned(Add(Upper20(Difference(a, b)), Bit11(Difference(a, b))))
      == (d / 0x1000 % 0x10_0000 + d / 0x800 % 2) % TWO_64
  {
    hide Unsigned, Add, Difference, Upper20, Bit11;
    DifferenceIs(a, b);
    Upper20Is(Difference(a, b));
    Bit11Is(Difference(a, b));
    Upper20Wraps(Unsigned(a) - Unsigned(b));
    SumIs(Upper20(Difference(a, b)), Bit11(Difference(a, b)));
  }

  lemma PcrelLoIs(a: bv64, b: bv64)
    ensures Unsigned(Lower12(Add(Difference(a, b), 4))) == SignedOf(12, Unsigned(a) - Unsigned(b) + 4) % TWO_64
  {
    hide Unsigned, Add, Difference, Lower12, SignedOf;
    SmallWords();
    DifferenceIs(a, b);
    SumIs(Difference(a, b), 4);
    WrappedSum(Unsigned(a) - Unsigned(b), 4);
    Lower12Is(Add(Difference(a, b), 4));
    Lower12Wraps(Unsigned(a) - Unsigned(b) + 4);
  }

  lemma RelocatedWords(m: Modifier, a: bv64, instAddr: bv64)
    ensures Unsigned(ApplyPrefix(Relocate(m), a, instAddr)) == Relocated(m, Unsigned(a), Unsigned(instAddr)) % TWO_64
  {
    hide Unsigned, Add, Difference, Upper20, Bit11, Lower12, SignedOf;
    match m
    case Hi => HiIs(a);
    case Lo => Lower12Is(a);
    case PcrelHi => PcrelHiIs(a, instAddr);
    case PcrelLo => PcrelLoIs(a, instAddr);
  }

  lemma SignsOfWords(a: bv64)
    ensures Unsigned(Difference(0, a)) == (0 - Unsigned(a)) % TWO_64
    ensures Unsigned(NotBits(a)) == (-1 - Unsigned(a)) % TWO_64
  {
    hide Unsigned, Difference, NotBits;
    SmallNumbers();
    DifferenceIs(0, a);
    NotIs(a);
    Bounded(a);
  }

  // ---------------------------------------------------------------- evaluation

  function NumberOf(r: Result<bv64>): Result<nat> {
    var v :- r;
    Ok(Unsigned(v))
  }

  lemma SumWords(v: bv64, w: bv64)
    ensures NumberOf(ApplyInfix(InfixOp.Plus, v, w)) == Ok(Wrapped(Unsigned(v) + Unsigned(w)))
    ensures NumberOf(ApplyInfix(Minus, v, w)) == Ok(Wrapped(Unsigned(v) - Unsigned(w)))
  {
    hide Unsigned, Add, Difference;
    SumIs(v, w);
    DifferenceIs(v, w);
  }

  lemma ProductWords(v: bv64, w: bv64)
    ensures NumberOf(ApplyInfix(Times, v, w)) == Ok(Wrapped(Unsigned(v) * Unsigned(w)))
    ensures
      var x, y := SignedOf(64, Unsigned(v)), SignedOf(64, Unsigned(w));
      NumberOf(ApplyInfix(Divide, v, w)) == if y == 0 then Failed else Ok(Wrapped(Quotient(x, y)))
  {
    hide Unsigned, Signed, Product, OfInt, TruncatingDiv, SignedOf, Quotient;
    ProductIs(v, w);
    QuotientWords(v, w);
  }

  lemma PrefixWords(v: bv64, m: Modifier, instAddr: bv64)
    ensures NumberOf(Ok(ApplyPrefix(Negate, v, instAddr))) == Ok(Wrapped(0 - Unsigned(v)))
    ensures NumberOf(Ok(ApplyPrefix(Complement, v, instAddr))) == Ok(Wrapped(-1 - Unsigned(v)))
    ensures NumberOf(Ok(ApplyPrefix(Relocate(m), v, instAddr)))
            == Ok(Wrapped(Relocated(m, Unsigned(v), Unsigned(instAddr))))
  {
    hide Unsigned, Difference, NotBits, Relocated;
    SignsOfWords(v);
    RelocatedWords(m, v, instAddr);
  }

  function Evaluated(s: Syntax, symbols: Symbols, instAddr: bv64): Result<bv64> {
    match s
    case Missing => Failed
    case Name(atom) => EvalAtom(atom, symbols)
    case Apply(op, a) =>
      var v :- Evaluated(a, symbols, instAddr);
      Ok(ApplyPrefix(op, v, instAddr))
    case Join(op, a, b) =>
      var v :- Evaluated(a, symbols, instAddr);
      var w :- Evaluated(b, symbols, instAddr);
      ApplyInfix(op, v, w)
  }

  lemma EvaluatedJoin(op: InfixOp, a: Syntax, b: Syntax, symbols: Symbols, instAddr: bv64)
    ensures
      var v, w := Evaluated(a, symbols, instAddr), Evaluated(b, symbols, instAddr);
      Evaluated(Join(op, a, b), symbols, instAddr)
      == if v.Ok? && w.Ok? then ApplyInfix(op, v.value, w.value) else Failed
  {
    hide ApplyInfix;
  }

  lemma EvaluatedApply(op: PrefixOp, a: Syntax, symbols: Symbols, instAddr: bv64)
    ensures
      var v := Evaluated(a, symbols, instAddr);
      Evaluated(Apply(op, a), symbols, instAddr) == if v.Ok? then Ok(ApplyPrefix(op, v.value, instAddr)) else Failed
  {
    hide ApplyPrefix;
  }

  lemma {:induction false} EvalShape(t: Tree, symbols: Symbols, instAddr: bv64)
    ensures Eval(t, symbols, instAddr) == Evaluated(Shape(t), symbols, instAddr)
  {
    hide ApplyPrefix, ApplyInfix;
    match t
    case Unary(_, _, a) => EvalShape(a, symbols, instAddr);
    case Binary(_, _, a, b) =>
      EvalShape(a, symbols, instAddr);
      EvalShape(b, symbols, instAddr);
    case _ =>
  }

  lemma {:induction false} ValueIs(e: OrExpr, symbols: Symbols, instAddr: bv64)
    ensures NumberOf(Evaluated(Meant(e), symbols, instAddr)) == Value(e, symbols, Unsigned(instAddr))
    decreases e
  {
    hide Unsigned, Bitwise, OrBits;
    match e
    case BitOnly(b) => BitValueIs(b, symbols, instAddr);
    case Either(l, r) =>
      ValueIs(l, symbols, instAddr);
      BitValueIs(r, symbols, instAddr);
      var v, w := Evaluated(Meant(l), symbols, instAddr), Evaluated(MeantBit(r), symbols, instAddr);
      if v.Ok? && w.Ok? {
        LogicIs(Disjunction, v.value, w.value);
      }
  }

  lemma {:induction false} BitValueIs(e: BitExpr, symbols: Symbols, instAddr: bv64)
    ensures NumberOf(Evaluated(MeantBit(e), symbols, instAddr)) == BitValue(e, symbols, Unsigned(instAddr))
    decreases e
  {
    hide Unsigned, Evaluated, Bitwise, AndBits, XorBits;
    if e.SumOnly? {
      SumValueIs(e.sum, symbols, instAddr);
    } else {
      BitValueIs(e.left, symbols, instAddr);
      SumValueIs(e.right, symbols, instAddr);
      var v, w := Evaluated(MeantBit(e.left), symbols, instAddr), Evaluated(MeantSum(e.right), symbols, instAddr);
      EvaluatedJoin(And, MeantBit(e.left), MeantSum(e.right), symbols, instAddr);
      EvaluatedJoin(Xor, MeantBit(e.left), MeantSum(e.right), symbols, instAddr);
      if v.Ok? && w.Ok? {
        LogicIs(Conjunction, v.value, w.value);
        LogicIs(Exclusion, v.value, w.value);
      }
    }
  }

  lemma {:induction false} SumValueIs(e: SumExpr, symbols: Symbols, instAddr: bv64)
    ensures NumberOf(Evaluated(MeantSum(e), symbols, instAddr)) == SumValue(e, symbols, Unsigned(instAddr))
    decreases e
  {
    hide Unsigned, Evaluated, ApplyInfix, Wrapped;
    if e.ProductOnly? {
      ProductValueIs(e.product, symbols, instAddr);
    } else {
      SumValueIs(e.left, symbols, instAddr);
      ProductValueIs(e.right, symbols, instAddr);
      var v, w := Evaluated(MeantSum(e.left), symbols, instAddr), Evaluated(MeantProduct(e.right), symbols, instAddr);
      EvaluatedJoin(InfixOp.Plus, MeantSum(e.left), MeantProduct(e.right), symbols, instAddr);
      EvaluatedJoin(Minus, MeantSum(e.left), MeantProduct(e.right), symbols, instAddr);
      if v.Ok? && w.Ok? {
        SumWords(v.value, w.value);
      }
    }
  }

  lemma {:induction false} ProductValueIs(e: ProductExpr, symbols: Symbols, instAddr: bv64)
    ensures NumberOf(Evaluated(MeantProduct(e), symbols, instAddr)) == ProductValue(e, symbols, Unsigned(instAddr))
    decreases e
  {
    hide Unsigned, Evaluated, ApplyInfix, SignedOf, Quotient, Wrapped;
    if e.FactorOnly? {
      FactorValueIs(e.factor, symbols, instAddr);
    } else {
      ProductValueIs(e.left, symbols, instAddr);
      FactorValueIs(e.right, symbols, instAddr);
      var v := Evaluated(MeantProduct(e.left), symbols, instAddr);
      var w := Evaluated(MeantFactor(e.right), symbols, instAddr);
      EvaluatedJoin(Times, MeantProduct(e.left), MeantFactor(e.right), symbols, instAddr);
      EvaluatedJoin(Divide, MeantProduct(e.left), MeantFactor(e.right), symbols, instAddr);
      if v.Ok? && w.Ok? {
        ProductWords(v.value, w.value);
      }
    }
  }

  lemma NamedValueIs(atom: Atom, symbols: Symbols, instAddr: bv64)
    ensures NumberOf(Evaluated(Name(atom), symbols, instAddr))
            == FactorValue(Named(atom), symbols, Unsigned(instAddr))
  {
    hide Unsigned;
  }

  lemma {:induction false} FactorValueIs(f: Factor, symbols: Symbols, instAddr: bv64)
    ensures NumberOf(Evaluated(MeantFactor(f), symbols, instAddr)) == FactorValue(f, symbols, Unsigned(instAddr))
    decreases f
  {
    hide Unsigned, Evaluated, ApplyPrefix, Relocated, Wrapped;
    if f.Parenthesised? {
      ValueIs(f.inner, symbols, instAddr);
    } else if f.Named? {
      NamedValueIs(f.atom, symbols, instAddr);
    } else {
      var g, m := f.operand, if f.Modified? then f.modifier else Hi;
      FactorValueIs(g, symbols, instAddr);
      EvaluatedApply(Negate, MeantFactor(g), symbols, instAddr);
      EvaluatedApply(Complement, MeantFactor(g), symbols, instAddr);
      EvaluatedApply(Relocate(m), MeantFactor(g), symbols, instAddr);
      var v := Evaluated(MeantFactor(g), symbols, instAddr);
      if v.Ok? {
        PrefixWords(v.value, m, instAddr);
      }
    }
  }

  /**
   * For every expression of the grammar, parsing its text and evaluating the tree gives the value of the expression
   * without the prefix operators in front of other prefix operators; its own value if there are none.
   */
  lemma ParseThenEval(e: OrExpr, symbols: Symbols, instAddr: bv64)
    ensures Run(START, Text(e)).Ok?
    ensures
      var value := NumberOf(Eval(Run(START, Text(e)).value.root, symbols, instAddr));
      && value == Value(Stripped(e), symbols, Unsigned(instAddr))
      && (Simple(e) ==> value == Value(e, symbols, Unsigned(instAddr)))
  {
    hide Run, Text, Eval, Shape, Meant, Stripped, Simple, Value, Evaluated, NumberOf;
    ParsesGrammar(e);
    ParsedRightIff(e);
    EvalShape(Run(START, Text(e)).value.root, symbols, instAddr);
    ValueIs(Stripped(e), symbols, instAddr);
    ValueIs(e, symbols, instAddr);
  }

  function Lone(f: Factor): OrExpr {
    BitOnly(SumOnly(ProductOnly(FactorOnly(f))))
  }

  lemma LoneValue(f: Factor, symbols: Symbols, pc: nat)
    ensures Value(Lone(f), symbols, pc) == FactorValue(f, symbols, pc)
    ensures Stripped(Lone(f)) == Lone(StrippedFactor(f))
  {
    hide FactorValue, StrippedFactor;
    assert SumValue(ProductOnly(FactorOnly(f)), symbols, pc) == FactorValue(f, symbols, pc);
    assert StrippedSum(ProductOnly(FactorOnly(f))) == ProductOnly(FactorOnly(StrippedFactor(f)));
  }

  lemma PrefixedFive()
    ensures
      var f := Complemented(Named(Number(5)));
      && FactorValue(f, map[], 0) == Ok(TWO_64 - 6) && FactorValue(Negated(f), map[], 0) == Ok(6)
      && StrippedFactor(Negated(f)) == f
  {
    var n := Named(Number(5));
    assert Unsigned(5) == 5;
    hide Unsigned;
    assert FactorValue(n, map[], 0) == Ok(5);
    assert FactorValue(Complemented(n), map[], 0) == Ok(TWO_64 - 6);
  }

  /** "-~5" is six; the parser drops the minus and makes it minus six. */
  lemma SecondPrefixReplacesFirst()
    ensures
      var e := Lone(Negated(Complemented(Named(Number(5)))));
      && Value(e, map[], 0) == Ok(6)
      && Run(START, Text(e)).Ok?
      && NumberOf(Eval(Run(START, Text(e)).value.root, map[], 0)) == Ok(TWO_64 - 6)
  {
    var f := Complemented(Named(Number(5)));
    hide Run, Text, Eval, Value, Stripped, Lone, FactorValue, StrippedFactor, NumberOf, Unsigned, Simple;
    PrefixedFive();
    SmallNumbers();
    LoneValue(Negated(f), map[], 0);
    LoneValue(f, map[], 0);
    ParseThenEval(Lone(Negated(f)), map[], 0);
  }
}
