/**
 * The reference grammar of assembler expressions, one datatype a level: or-chains of and- and xor-chains of sums of
 * products of prefixed words and parentheses. Which operator binds tighter is in the types alone, and so is that
 * operators of a level associate to the left; nothing here mentions a priority before the parser is compared.
 */
module Grammar {
  import opened Words
  import opened Expressions
  import opened Precedence
  import opened ParserProof

  datatype OrExpr = BitOnly(bit: BitExpr) | Either(left: OrExpr, right: BitExpr)

  datatype BitExpr =
    | SumOnly(sum: SumExpr)
    | Both(left: BitExpr, right: SumExpr)
    | Differing(left: BitExpr, right: SumExpr)

  datatype SumExpr =
    | ProductOnly(product: ProductExpr)
    | Added(left: SumExpr, right: ProductExpr)
    | Subtracted(left: SumExpr, right: ProductExpr)

  datatype ProductExpr =
    | FactorOnly(factor: Factor)
    | Multiplied(left: ProductExpr, right: Factor)
    | Divided(left: ProductExpr, right: Factor)

  datatype Factor =
    | Named(atom: Atom)
    | Parenthesised(inner: OrExpr)
    | Kept(operand: Factor)
    | Negated(operand: Factor)
    | Complemented(operand: Factor)
    | Modified(modifier: Modifier, operand: Factor)

  // ---------------------------------------------------------------- text

  function Text(e: OrExpr): seq<Token> {
    match e
    case BitOnly(b) => BitText(b)
    case Either(l, r) => Text(l) + [TInfix(Or)] + BitText(r)
  }

  function BitText(e: BitExpr): seq<Token> {
    match e
    case SumOnly(s) => SumText(s)
    case Both(l, r) => BitText(l) + [TInfix(And)] + SumText(r)
    case Differing(l, r) => BitText(l) + [TInfix(Xor)] + SumText(r)
  }

  function SumText(e: SumExpr): seq<Token> {
    match e
    case ProductOnly(p) => ProductText(p)
    case Added(l, r) => SumText(l) + [TPlus] + ProductText(r)
    case Subtracted(l, r) => SumText(l) + [TMinus] + ProductText(r)
  }

  function ProductText(e: ProductExpr): seq<Token> {
    match e
    case FactorOnly(f) => FactorText(f)
    case Multiplied(l, r) => ProductText(l) + [TInfix(Times)] + FactorText(r)
    case Divided(l, r) => ProductText(l) + [TInfix(Divide)] + FactorText(r)
  }

  function FactorText(f: Factor): seq<Token> {
    match f
    case Named(atom) => [TAtom(atom)]
    case Parenthesised(e) => [TOpen] + Text(e) + [TClose]
    case Kept(g) => [TPlus] + FactorText(g)
    case Negated(g) => [TMinus] + FactorText(g)
    case Complemented(g) => [TTilde] + FactorText(g)
    case Modified(m, g) => [TModifier(m)] + FactorText(g)
  }

  // ---------------------------------------------------------------- syntax

  /** What an expression applies to what. */
  datatype Syntax =
    | Missing
    | Name(atom: Atom)
    | Apply(prefix: PrefixOp, a: Syntax)
    | Join(infix: InfixOp, left: Syntax, right: Syntax)

  function Meant(e: OrExpr): Syntax {
    match e
    case BitOnly(b) => MeantBit(b)
    case Either(l, r) => Join(Or, Meant(l), MeantBit(r))
  }

  function MeantBit(e: BitExpr): Syntax {
    match e
    case SumOnly(s) => MeantSum(s)
    case Both(l, r) => Join(And, MeantBit(l), MeantSum(r))
    case Differing(l, r) => Join(Xor, MeantBit(l), MeantSum(r))
  }

  function MeantSum(e: SumExpr): Syntax {
    match e
    case ProductOnly(p) => MeantProduct(p)
    case Added(l, r) => Join(InfixOp.Plus, MeantSum(l), MeantProduct(r))
    case Subtracted(l, r) => Join(Minus, MeantSum(l), MeantProduct(r))
  }

  function MeantProduct(e: ProductExpr): Syntax {
    match e
    case FactorOnly(f) => MeantFactor(f)
    case Multiplied(l, r) => Join(Times, MeantProduct(l), MeantFactor(r))
    case Divided(l, r) => Join(Divide, MeantProduct(l), MeantFactor(r))
  }

  function MeantFactor(f: Factor): Syntax {
    match f
    case Named(atom) => Name(atom)
    case Parenthesised(e) => Meant(e)
    case Kept(g) => MeantFactor(g)
    case Negated(g) => Apply(Negate, MeantFactor(g))
    case Complemented(g) => Apply(Complement, MeantFactor(g))
    case Modified(m, g) => Apply(Relocate(m), MeantFactor(g))
  }

  /** The parser's tree without its priorities. */
  function Shape(t: Tree): Syntax {
    match t
    case Null => Missing
    case Leaf(atom) => Name(atom)
    case Unary(_, op, a) => Apply(op, Shape(a))
    case Binary(_, op, a, b) => Join(op, Shape(a), Shape(b))
  }

  // ---------------------------------------------------------------- as chains of operands

  function Append(c: Chain, op: InfixOp, d: Chain): Chain
    decreases d
  {
    match d
    case One(o) => Snoc(c, op, o)
    case Snoc(init, r, o) => Snoc(Append(c, op, init), r, o)
  }

  function Flat(e: OrExpr): Chain {
    match e
    case BitOnly(b) => FlatBit(b)
    case Either(l, r) => Append(Flat(l), Or, FlatBit(r))
  }

  function FlatBit(e: BitExpr): Chain {
    match e
    case SumOnly(s) => FlatSum(s)
    case Both(l, r) => Append(FlatBit(l), And, FlatSum(r))
    case Differing(l, r) => Append(FlatBit(l), Xor, FlatSum(r))
  }

  function FlatSum(e: SumExpr): Chain {
    match e
    case ProductOnly(p) => FlatProduct(p)
    case Added(l, r) => Append(FlatSum(l), InfixOp.Plus, FlatProduct(r))
    case Subtracted(l, r) => Append(FlatSum(l), Minus, FlatProduct(r))
  }

  function FlatProduct(e: ProductExpr): Chain {
    match e
    case FactorOnly(f) => One(FlatFactor(f))
    case Multiplied(l, r) => Snoc(FlatProduct(l), Times, FlatFactor(r))
    case Divided(l, r) => Snoc(FlatProduct(l), Divide, FlatFactor(r))
  }

  function Prefixing(op: PrefixOp, o: Operand): Operand {
    o.(prefixes := [op] + o.prefixes)
  }

  function FlatFactor(f: Factor): Operand {
    match f
    case Named(atom) => Operand([], Atomic(atom))
    case Parenthesised(e) => Operand([], Group(Flat(e)))
    case Kept(g) => Prefixing(Positive, FlatFactor(g))
    case Negated(g) => Prefixing(Negate, FlatFactor(g))
    case Complemented(g) => Prefixing(Complement, FlatFactor(g))
    case Modified(m, g) => Prefixing(Relocate(m), FlatFactor(g))
  }

  lemma {:induction false} AppendTokens(c: Chain, op: InfixOp, d: Chain)
    ensures Tokens(Append(c, op, d)) == Tokens(c) + [InfixToken(op)] + Tokens(d)
    decreases d
  {
    hide OperandTokens, InfixToken;
    if d.Snoc? {
      AppendTokens(c, op, d.init);
    }
  }

  lemma PrefixingTokens(op: PrefixOp, o: Operand)
    ensures OperandTokens(Prefixing(op, o)) == [PrefixToken(op)] + OperandTokens(o)
  {
    hide PrefixToken;
    assert ([op] + o.prefixes)[1..] == o.prefixes;
  }

  lemma {:induction false} FlatText(e: OrExpr)
    ensures Tokens(Flat(e)) == Text(e)
  {
    match e
    case BitOnly(b) => FlatBitText(b);
    case Either(l, r) =>
      FlatText(l);
      FlatBitText(r);
      AppendTokens(Flat(l), Or, FlatBit(r));
  }

  lemma {:induction false} FlatBitText(e: BitExpr)
    ensures Tokens(FlatBit(e)) == BitText(e)
  {
    match e
    case SumOnly(s) => FlatSumText(s);
    case Both(l, r) =>
      FlatBitText(l);
      FlatSumText(r);
      AppendTokens(FlatBit(l), And, FlatSum(r));
    case Differing(l, r) =>
      FlatBitText(l);
      FlatSumText(r);
      AppendTokens(FlatBit(l), Xor, FlatSum(r));
  }

  lemma {:induction false} FlatSumText(e: SumExpr)
    ensures Tokens(FlatSum(e)) == SumText(e)
  {
    match e
    case ProductOnly(p) => FlatProductText(p);
    case Added(l, r) =>
      FlatSumText(l);
      FlatProductText(r);
      AppendTokens(FlatSum(l), InfixOp.Plus, FlatProduct(r));
    case Subtracted(l, r) =>
      FlatSumText(l);
      FlatProductText(r);
      AppendTokens(FlatSum(l), Minus, FlatProduct(r));
  }

  lemma {:induction false} FlatProductText(e: ProductExpr)
    ensures Tokens(FlatProduct(e)) == ProductText(e)
  {
    hide OperandTokens;
    match e
    case FactorOnly(f) => FlatFactorText(f);
    case Multiplied(l, r) =>
      FlatProductText(l);
      FlatFactorText(r);
    case Divided(l, r) =>
      FlatProductText(l);
      FlatFactorText(r);
  }

  lemma {:induction false} FlatFactorText(f: Factor)
    ensures OperandTokens(FlatFactor(f)) == FactorText(f)
  {
    match f
    case Named(_) =>
    case Parenthesised(e) => FlatText(e);
    case Kept(g) =>
      FlatFactorText(g);
      PrefixingTokens(Positive, FlatFactor(g));
    case Negated(g) =>
      FlatFactorText(g);
      PrefixingTokens(Negate, FlatFactor(g));
    case Complemented(g) =>
      FlatFactorText(g);
      PrefixingTokens(Complement, FlatFactor(g));
    case Modified(m, g) =>
      FlatFactorText(g);
      PrefixingTokens(Relocate(m), FlatFactor(g));
  }

  // ---------------------------------------------------------------- the precedence tree has the grammar's syntax

  /** All operators of the chain bind at least as tight as `p`. */
  ghost predicate Binds(c: Chain, p: int) {
    forall k :: 0 <= k < |Ops(c)| ==> InfixPriority(Ops(c)[k]) >= p
  }

  lemma {:induction false} AppendParts(base: int, c: Chain, op: InfixOp, d: Chain)
    ensures Ops(Append(c, op, d)) == Ops(c) + [op] + Ops(d)
    ensures OperandTrees(base, Append(c, op, d)) == OperandTrees(base, c) + OperandTrees(base, d)
    decreases d
  {
    hide OperandTree;
    if d.Snoc? {
      AppendParts(base, c, op, d.init);
    }
  }

  lemma AppendBinds(c: Chain, op: InfixOp, d: Chain, p: int)
    requires Binds(c, p) && Binds(d, p) && InfixPriority(op) >= p
    ensures Binds(Append(c, op, d), p)
  {
    hide InfixPriority;
    AppendParts(0, c, op, d);
  }

  /** There is only one rightmost operator among those that bind least. */
  lemma LastLowestIs(ops: seq<InfixOp>, i: nat)
    requires i < |ops|
    requires forall j :: 0 <= j < |ops| ==> InfixPriority(ops[i]) <= InfixPriority(ops[j])
    requires forall j :: i < j < |ops| ==> InfixPriority(ops[i]) < InfixPriority(ops[j])
    ensures LastLowest(ops) == i
  {
    hide InfixPriority;
    var k := LastLowest(ops);
    assert InfixPriority(ops[k]) == InfixPriority(ops[i]);
  }

  lemma AppendSplits(base: int, c: Chain, op: InfixOp, d: Chain)
    requires Binds(c, InfixPriority(op)) && Binds(d, InfixPriority(op) + 1)
    ensures PrecedenceTree(base, Append(c, op, d))
            == Binary(base + InfixPriority(op), op, PrecedenceTree(base, c), PrecedenceTree(base, d))
  {
    hide InfixPriority, LastLowest, Joined, OperandTrees;
    AppendParts(base, c, op, d);
    var ops, trees, n := Ops(c) + [op] + Ops(d), OperandTrees(base, c) + OperandTrees(base, d), |Ops(c)|;
    LastLowestIs(ops, n);
    JoinedSplits(base, ops, trees);
    assert ops[..n] == Ops(c) && ops[n + 1..] == Ops(d);
    assert trees[..n + 1] == OperandTrees(base, c) && trees[n + 1..] == OperandTrees(base, d);
  }

  lemma PrefixingTree(base: int, op: PrefixOp, o: Operand)
    ensures OperandTree(base, Prefixing(op, o))
            == if op == Positive then OperandTree(base, o) else Unary(base + PREFIX_PRIORITY, op, OperandTree(base, o))
  {
    hide PrecedenceTree;
    assert ([op] + o.prefixes)[1..] == o.prefixes;
  }

  lemma OneTree(base: int, o: Operand)
    ensures PrecedenceTree(base, One(o)) == OperandTree(base, o)
  {
    hide OperandTree;
  }

  lemma Weaker(c: Chain, p: int, q: int)
    requires Binds(c, p) && q <= p
    ensures Binds(c, q)
  {
    hide InfixPriority, Ops;
  }

  lemma {:induction false} MeantShape(base: int, e: OrExpr)
    ensures Binds(Flat(e), 10) && Shape(PrecedenceTree(base, Flat(e))) == Meant(e)
    decreases e
  {
    hide PrecedenceTree, Binds;
    match e
    case BitOnly(b) =>
      BitShape(base, b);
      Weaker(FlatBit(b), 15, 10);
    case Either(l, r) =>
      MeantShape(base, l);
      BitShape(base, r);
      Weaker(FlatBit(r), 15, 11);
      Weaker(FlatBit(r), 15, 10);
      AppendBinds(Flat(l), Or, FlatBit(r), 10);
      AppendSplits(base, Flat(l), Or, FlatBit(r));
  }

  lemma JoinBit(base: int, l: BitExpr, op: InfixOp, r: SumExpr)
    requires op == And || op == Xor
    requires Binds(FlatBit(l), 15) && Binds(FlatSum(r), 20)
    ensures
      var joined := Append(FlatBit(l), op, FlatSum(r));
      && Binds(joined, 15)
      && Shape(PrecedenceTree(base, joined))
         == Join(op, Shape(PrecedenceTree(base, FlatBit(l))), Shape(PrecedenceTree(base, FlatSum(r))))
  {
    hide PrecedenceTree, Binds;
    Weaker(FlatSum(r), 20, 16);
    Weaker(FlatSum(r), 20, 15);
    AppendBinds(FlatBit(l), op, FlatSum(r), 15);
    AppendSplits(base, FlatBit(l), op, FlatSum(r));
  }

  lemma {:induction false} BitShape(base: int, e: BitExpr)
    ensures Binds(FlatBit(e), 15) && Shape(PrecedenceTree(base, FlatBit(e))) == MeantBit(e)
    decreases e
  {
    hide PrecedenceTree, Binds, Shape;
    match e
    case SumOnly(s) =>
      SumShape(base, s);
      Weaker(FlatSum(s), 20, 15);
    case Both(l, r) =>
      BitShape(base, l);
      SumShape(base, r);
      JoinBit(base, l, And, r);
    case Differing(l, r) =>
      BitShape(base, l);
      SumShape(base, r);
      JoinBit(base, l, Xor, r);
  }

  lemma JoinSum(base: int, l: SumExpr, op: InfixOp, r: ProductExpr)
    requires op == InfixOp.Plus || op == Minus
    requires Binds(FlatSum(l), 20) && Binds(FlatProduct(r), 30)
    ensures
      var joined := Append(FlatSum(l), op, FlatProduct(r));
      && Binds(joined, 20)
      && Shape(PrecedenceTree(base, joined))
         == Join(op, Shape(PrecedenceTree(base, FlatSum(l))), Shape(PrecedenceTree(base, FlatProduct(r))))
  {
    hide PrecedenceTree, Binds;
    Weaker(FlatProduct(r), 30, 21);
    Weaker(FlatProduct(r), 30, 20);
    AppendBinds(FlatSum(l), op, FlatProduct(r), 20);
    AppendSplits(base, FlatSum(l), op, FlatProduct(r));
  }

  lemma {:induction false} SumShape(base: int, e: SumExpr)
    ensures Binds(FlatSum(e), 20) && Shape(PrecedenceTree(base, FlatSum(e))) == MeantSum(e)
    decreases e
  {
    hide PrecedenceTree, Binds, Shape;
    match e
    case ProductOnly(p) =>
      ProductShape(base, p);
      Weaker(FlatProduct(p), 30, 20);
    case Added(l, r) =>
      SumShape(base, l);
      ProductShape(base, r);
      JoinSum(base, l, InfixOp.Plus, r);
    case Subtracted(l, r) =>
      SumShape(base, l);
      ProductShape(base, r);
      JoinSum(base, l, Minus, r);
  }

  lemma JoinProduct(base: int, l: ProductExpr, op: InfixOp, r: Factor)
    requires op == Times || op == Divide
    requires Binds(FlatProduct(l), 30)
    ensures
      var joined := Snoc(FlatProduct(l), op, FlatFactor(r));
      && Binds(joined, 30)
      && Shape(PrecedenceTree(base, joined))
         == Join(op, Shape(PrecedenceTree(base, FlatProduct(l))), Shape(OperandTree(base, FlatFactor(r))))
  {
    var one := One(FlatFactor(r));
    assert Binds(one, 31);
    assert Append(FlatProduct(l), op, one) == Snoc(FlatProduct(l), op, FlatFactor(r));
    hide PrecedenceTree, Binds;
    OneTree(base, FlatFactor(r));
    Weaker(one, 31, 30);
    AppendBinds(FlatProduct(l), op, one, 30);
    AppendSplits(base, FlatProduct(l), op, one);
  }

  lemma {:induction false} ProductShape(base: int, e: ProductExpr)
    ensures Binds(FlatProduct(e), 30) && Shape(PrecedenceTree(base, FlatProduct(e))) == MeantProduct(e)
    decreases e
  {
    match e
    case FactorOnly(f) =>
      assert Binds(One(FlatFactor(f)), 30);
      hide PrecedenceTree, Binds, Shape;
      FactorShape(base, f);
      OneTree(base, FlatFactor(f));
    case Multiplied(l, r) =>
      hide PrecedenceTree, Binds, Shape;
      ProductShape(base, l);
      FactorShape(base, r);
      JoinProduct(base, l, Times, r);
    case Divided(l, r) =>
      hide PrecedenceTree, Binds, Shape;
      ProductShape(base, l);
      FactorShape(base, r);
      JoinProduct(base, l, Divide, r);
  }

  lemma {:induction false} FactorShape(base: int, f: Factor)
    ensures Shape(OperandTree(base, FlatFactor(f))) == MeantFactor(f)
    decreases f
  {
    match f
    case Named(_) =>
    case Parenthesised(e) => MeantShape(base + 100, e);
    case Kept(g) =>
      FactorShape(base, g);
      PrefixingTree(base, Positive, FlatFactor(g));
    case Negated(g) =>
      FactorShape(base, g);
      PrefixingTree(base, Negate, FlatFactor(g));
    case Complemented(g) =>
      FactorShape(base, g);
      PrefixingTree(base, Complement, FlatFactor(g));
    case Modified(m, g) =>
      FactorShape(base, g);
      PrefixingTree(base, Relocate(m), FlatFactor(g));
  }

  // ---------------------------------------------------------------- what the parser drops

  /** Whether a prefix operator other than `+` stands in front of the word or parenthesis. */
  predicate HasPrefix(f: Factor) {
    match f
    case Named(_) => false
    case Parenthesised(_) => false
    case Kept(g) => HasPrefix(g)
    case _ => true
  }

  function Stripped(e: OrExpr): OrExpr {
    match e
    case BitOnly(b) => BitOnly(StrippedBit(b))
    case Either(l, r) => Either(Stripped(l), StrippedBit(r))
  }

  function StrippedBit(e: BitExpr): BitExpr {
    match e
    case SumOnly(s) => SumOnly(StrippedSum(s))
    case Both(l, r) => Both(StrippedBit(l), StrippedSum(r))
    case Differing(l, r) => Differing(StrippedBit(l), StrippedSum(r))
  }

  function StrippedSum(e: SumExpr): SumExpr {
    match e
    case ProductOnly(p) => ProductOnly(StrippedProduct(p))
    case Added(l, r) => Added(StrippedSum(l), StrippedProduct(r))
    case Subtracted(l, r) => Subtracted(StrippedSum(l), StrippedProduct(r))
  }

  function StrippedProduct(e: ProductExpr): ProductExpr {
    match e
    case FactorOnly(f) => FactorOnly(StrippedFactor(f))
    case Multiplied(l, r) => Multiplied(StrippedProduct(l), StrippedFactor(r))
    case Divided(l, r) => Divided(StrippedProduct(l), StrippedFactor(r))
  }

  /** Only the prefix operator next to the word or parenthesis is kept. */
  function StrippedFactor(f: Factor): Factor {
    match f
    case Named(_) => f
    case Parenthesised(e) => Parenthesised(Stripped(e))
    case Kept(g) => StrippedFactor(g)
    case Negated(g) => if HasPrefix(g) then StrippedFactor(g) else Negated(StrippedFactor(g))
    case Complemented(g) => if HasPrefix(g) then StrippedFactor(g) else Complemented(StrippedFactor(g))
    case Modified(m, g) => if HasPrefix(g) then StrippedFactor(g) else Modified(m, StrippedFactor(g))
  }

  lemma {:induction false} AppendEffective(c: Chain, op: InfixOp, d: Chain)
    ensures Effective(Append(c, op, d)) == Append(Effective(c), op, Effective(d))
    decreases d
  {
    hide EffectiveOperand;
    if d.Snoc? {
      AppendEffective(c, op, d.init);
    }
  }

  lemma {:induction false} StrippedIs(e: OrExpr)
    ensures Flat(Stripped(e)) == Effective(Flat(e))
  {
    match e
    case BitOnly(b) => StrippedBitIs(b);
    case Either(l, r) =>
      StrippedIs(l);
      StrippedBitIs(r);
      AppendEffective(Flat(l), Or, FlatBit(r));
  }

  lemma {:induction false} StrippedBitIs(e: BitExpr)
    ensures FlatBit(StrippedBit(e)) == Effective(FlatBit(e))
  {
    match e
    case SumOnly(s) => StrippedSumIs(s);
    case Both(l, r) =>
      StrippedBitIs(l);
      StrippedSumIs(r);
      AppendEffective(FlatBit(l), And, FlatSum(r));
    case Differing(l, r) =>
      StrippedBitIs(l);
      StrippedSumIs(r);
      AppendEffective(FlatBit(l), Xor, FlatSum(r));
  }

  lemma {:induction false} StrippedSumIs(e: SumExpr)
    ensures FlatSum(StrippedSum(e)) == Effective(FlatSum(e))
  {
    match e
    case ProductOnly(p) => StrippedProductIs(p);
    case Added(l, r) =>
      StrippedSumIs(l);
      StrippedProductIs(r);
      AppendEffective(FlatSum(l), InfixOp.Plus, FlatProduct(r));
    case Subtracted(l, r) =>
      StrippedSumIs(l);
      StrippedProductIs(r);
      AppendEffective(FlatSum(l), Minus, FlatProduct(r));
  }

  lemma {:induction false} StrippedProductIs(e: ProductExpr)
    ensures FlatProduct(StrippedProduct(e)) == Effective(FlatProduct(e))
  {
    match e
    case FactorOnly(f) => StrippedFactorIs(f);
    case Multiplied(l, r) =>
      StrippedProductIs(l);
      StrippedFactorIs(r);
    case Divided(l, r) =>
      StrippedProductIs(l);
      StrippedFactorIs(r);
  }

  lemma {:induction false} KeepLast(kept: seq<PrefixOp>, prefixes: seq<PrefixOp>)
    requires |kept| <= 1
    ensures Keep(kept, prefixes) == if Keep([], prefixes) == [] then kept else Keep([], prefixes)
    decreases |prefixes|
  {
    if prefixes != [] {
      KeepLast(if prefixes[0] == Positive then kept else [prefixes[0]], prefixes[1..]);
    }
  }

  lemma PrefixingEffective(op: PrefixOp, o: Operand)
    ensures EffectiveOperand(Prefixing(op, o))
            == if op == Positive || Keep([], o.prefixes) != [] then EffectiveOperand(o)
               else Prefixing(op, EffectiveOperand(o))
  {
    hide Effective;
    assert ([op] + o.prefixes)[1..] == o.prefixes;
    KeepLast([op], o.prefixes);
  }

  lemma {:induction false} StrippedFactorIs(f: Factor)
    ensures FlatFactor(StrippedFactor(f)) == EffectiveOperand(FlatFactor(f))
    ensures HasPrefix(f) <==> Keep([], FlatFactor(f).prefixes) != []
  {
    match f
    case Named(_) =>
    case Parenthesised(e) => StrippedIs(e);
    case Kept(g) =>
      StrippedFactorIs(g);
      PrefixingEffective(Positive, FlatFactor(g));
    case Negated(g) =>
      StrippedFactorIs(g);
      PrefixingEffective(Negate, FlatFactor(g));
    case Complemented(g) =>
      StrippedFactorIs(g);
      PrefixingEffective(Complement, FlatFactor(g));
    case Modified(m, g) =>
      StrippedFactorIs(g);
      PrefixingEffective(Relocate(m), FlatFactor(g));
  }

  // ---------------------------------------------------------------- what the parser gets right

  /** No operand has two prefix operators in a row, not counting `+`. */
  predicate Simple(e: OrExpr) {
    match e
    case BitOnly(b) => SimpleBit(b)
    case Either(l, r) => Simple(l) && SimpleBit(r)
  }

  predicate SimpleBit(e: BitExpr) {
    match e
    case SumOnly(s) => SimpleSum(s)
    case Both(l, r) => SimpleBit(l) && SimpleSum(r)
    case Differing(l, r) => SimpleBit(l) && SimpleSum(r)
  }

  predicate SimpleSum(e: SumExpr) {
    match e
    case ProductOnly(p) => SimpleProduct(p)
    case Added(l, r) => SimpleSum(l) && SimpleProduct(r)
    case Subtracted(l, r) => SimpleSum(l) && SimpleProduct(r)
  }

  predicate SimpleProduct(e: ProductExpr) {
    match e
    case FactorOnly(f) => SimpleFactor(f)
    case Multiplied(l, r) => SimpleProduct(l) && SimpleFactor(r)
    case Divided(l, r) => SimpleProduct(l) && SimpleFactor(r)
  }

  predicate SimpleFactor(f: Factor) {
    match f
    case Named(_) => true
    case Parenthesised(e) => Simple(e)
    case Kept(g) => SimpleFactor(g)
    case Negated(g) => !HasPrefix(g) && SimpleFactor(g)
    case Complemented(g) => !HasPrefix(g) && SimpleFactor(g)
    case Modified(_, g) => !HasPrefix(g) && SimpleFactor(g)
  }

  lemma {:induction false} AppendSingle(c: Chain, op: InfixOp, d: Chain)
    ensures Single(Append(c, op, d)) <==> Single(c) && Single(d)
    decreases d
  {
    hide SingleOperand;
    if d.Snoc? {
      AppendSingle(c, op, d.init);
    }
  }

  lemma {:induction false} SimpleIff(e: OrExpr)
    ensures Simple(e) <==> Single(Flat(e))
  {
    match e
    case BitOnly(b) => SimpleBitIff(b);
    case Either(l, r) =>
      SimpleIff(l);
      SimpleBitIff(r);
      AppendSingle(Flat(l), Or, FlatBit(r));
  }

  lemma {:induction false} SimpleBitIff(e: BitExpr)
    ensures SimpleBit(e) <==> Single(FlatBit(e))
  {
    match e
    case SumOnly(s) => SimpleSumIff(s);
    case Both(l, r) =>
      SimpleBitIff(l);
      SimpleSumIff(r);
      AppendSingle(FlatBit(l), And, FlatSum(r));
    case Differing(l, r) =>
      SimpleBitIff(l);
      SimpleSumIff(r);
      AppendSingle(FlatBit(l), Xor, FlatSum(r));
  }

  lemma {:induction false} SimpleSumIff(e: SumExpr)
    ensures SimpleSum(e) <==> Single(FlatSum(e))
  {
    match e
    case ProductOnly(p) => SimpleProductIff(p);
    case Added(l, r) =>
      SimpleSumIff(l);
      SimpleProductIff(r);
      AppendSingle(FlatSum(l), InfixOp.Plus, FlatProduct(r));
    case Subtracted(l, r) =>
      SimpleSumIff(l);
      SimpleProductIff(r);
      AppendSingle(FlatSum(l), Minus, FlatProduct(r));
  }

  lemma {:induction false} SimpleProductIff(e: ProductExpr)
    ensures SimpleProduct(e) <==> Single(FlatProduct(e))
  {
    match e
    case FactorOnly(f) => SimpleFactorIff(f);
    case Multiplied(l, r) =>
      SimpleProductIff(l);
      SimpleFactorIff(r);
    case Divided(l, r) =>
      SimpleProductIff(l);
      SimpleFactorIff(r);
  }

  lemma PrefixingSigns(op: PrefixOp, o: Operand)
    ensures Signs(Prefixing(op, o).prefixes) == Signs(o.prefixes) + if op == Positive then 0 else 1
  {
    assert ([op] + o.prefixes)[1..] == o.prefixes;
  }

  lemma {:induction false} SimpleFactorIff(f: Factor)
    ensures SimpleFactor(f) <==> SingleOperand(FlatFactor(f))
    ensures HasPrefix(f) <==> Signs(FlatFactor(f).prefixes) > 0
  {
    match f
    case Named(_) =>
    case Parenthesised(e) => SimpleIff(e);
    case Kept(g) =>
      SimpleFactorIff(g);
      PrefixingSigns(Positive, FlatFactor(g));
    case Negated(g) =>
      SimpleFactorIff(g);
      PrefixingSigns(Negate, FlatFactor(g));
    case Complemented(g) =>
      SimpleFactorIff(g);
      PrefixingSigns(Complement, FlatFactor(g));
    case Modified(m, g) =>
      SimpleFactorIff(g);
      PrefixingSigns(Relocate(m), FlatFactor(g));
  }

  /**
   * The parser takes the text of every expression of the grammar, and applies what the expression applies, in its
   * order, but for the prefix operators in front of other prefix operators.
   */
  lemma ParsesGrammar(e: OrExpr)
    ensures Run(START, Text(e)).Ok?
    ensures Shape(Run(START, Text(e)).value.root) == Meant(Stripped(e))
  {
    hide Run, PrecedenceTree, Text, Flat, Shape, Meant, Stripped;
    FlatText(e);
    ParsesEffective(Flat(e));
    StrippedIs(e);
    MeantShape(100, Stripped(e));
  }

  function Applied(s: Syntax): nat {
    match s
    case Apply(_, a) => 1 + Applied(a)
    case Join(_, a, b) => Applied(a) + Applied(b)
    case _ => 0
  }

  lemma {:induction false} AppliedShape(t: Tree)
    ensures Applied(Shape(t)) == Unaries(t)
  {
    match t
    case Unary(_, _, a) => AppliedShape(a);
    case Binary(_, _, a, b) =>
      AppliedShape(a);
      AppliedShape(b);
    case _ =>
  }

  /** The parser builds what the expression means exactly when no operand has two prefix operators in a row. */
  lemma ParsedRightIff(e: OrExpr)
    ensures Run(START, Text(e)).Ok? && (Shape(Run(START, Text(e)).value.root) == Meant(e) <==> Simple(e))
  {
    hide Run, PrecedenceTree, Text, Flat, Shape, Meant, Stripped, Simple;
    var c := Flat(e);
    FlatText(e);
    ParsesEffective(c);
    MeantShape(100, e);
    SimpleIff(e);
    if Simple(e) {
      SingleKept(100, c);
    } else {
      AppliedShape(PrecedenceTree(100, c));
      AppliedShape(PrecedenceTree(100, Effective(c)));
      UnariesChain(100, c);
      UnariesChain(100, Effective(c));
      ChainLoses(c);
    }
  }

  // ---------------------------------------------------------------- the grammar leaves no chain out

  function Push(e: OrExpr, op: InfixOp, f: Factor): OrExpr {
    if op == Or then Either(e, SumOnly(ProductOnly(FactorOnly(f))))
    else match e
      case BitOnly(b) => BitOnly(PushBit(b, op, f))
      case Either(l, r) => Either(l, PushBit(r, op, f))
  }

  function PushBit(e: BitExpr, op: InfixOp, f: Factor): BitExpr {
    match op
    case And => Both(e, ProductOnly(FactorOnly(f)))
    case Xor => Differing(e, ProductOnly(FactorOnly(f)))
    case _ =>
      match e
      case SumOnly(s) => SumOnly(PushSum(s, op, f))
      case Both(l, r) => Both(l, PushSum(r, op, f))
      case Differing(l, r) => Differing(l, PushSum(r, op, f))
  }

  function PushSum(e: SumExpr, op: InfixOp, f: Factor): SumExpr {
    match op
    case Plus => Added(e, FactorOnly(f))
    case Minus => Subtracted(e, FactorOnly(f))
    case _ =>
      match e
      case ProductOnly(p) => ProductOnly(PushProduct(p, op, f))
      case Added(l, r) => Added(l, PushProduct(r, op, f))
      case Subtracted(l, r) => Subtracted(l, PushProduct(r, op, f))
  }

  function PushProduct(e: ProductExpr, op: InfixOp, f: Factor): ProductExpr {
    if op == Times then Multiplied(e, f) else Divided(e, f)
  }

  lemma LoneFactor(f: Factor)
    ensures FlatSum(ProductOnly(FactorOnly(f))) == One(FlatFactor(f))
    ensures FlatBit(SumOnly(ProductOnly(FactorOnly(f)))) == One(FlatFactor(f))
    ensures Flat(BitOnly(SumOnly(ProductOnly(FactorOnly(f))))) == One(FlatFactor(f))
  {
    hide FlatFactor;
    assert FlatProduct(FactorOnly(f)) == One(FlatFactor(f));
    assert FlatSum(ProductOnly(FactorOnly(f))) == One(FlatFactor(f));
    assert FlatBit(SumOnly(ProductOnly(FactorOnly(f)))) == One(FlatFactor(f));
  }

  lemma PushSumFlat(e: SumExpr, op: InfixOp, f: Factor)
    requires op != Or && op != And && op != Xor
    ensures FlatSum(PushSum(e, op, f)) == Snoc(FlatSum(e), op, FlatFactor(f))
  {
  }

  lemma PushBitFlat(e: BitExpr, op: InfixOp, f: Factor)
    requires op != Or
    ensures FlatBit(PushBit(e, op, f)) == Snoc(FlatBit(e), op, FlatFactor(f))
  {
    hide FlatFactor;
    LoneFactor(f);
    if op != And && op != Xor {
      PushSumFlat(if e.SumOnly? then e.sum else e.right, op, f);
    }
  }

  lemma PushFlat(e: OrExpr, op: InfixOp, f: Factor)
    ensures Flat(Push(e, op, f)) == Snoc(Flat(e), op, FlatFactor(f))
  {
    hide FlatFactor;
    LoneFactor(f);
    if op != Or {
      PushBitFlat(if e.BitOnly? then e.bit else e.right, op, f);
    }
  }

  lemma {:induction false} PrefixedFactor(prefixes: seq<PrefixOp>, core: Core, g: Factor) returns (f: Factor)
    requires FlatFactor(g) == Operand([], core)
    ensures FlatFactor(f) == Operand(prefixes, core)
    decreases |prefixes|
  {
    if prefixes == [] {
      return g;
    }
    var rest := PrefixedFactor(prefixes[1..], core, g);
    match prefixes[0] {
      case Positive => f := Kept(rest);
      case Negate => f := Negated(rest);
      case Complement => f := Complemented(rest);
      case Relocate(m) => f := Modified(m, rest);
    }
    assert [prefixes[0]] + prefixes[1..] == prefixes;
  }

  lemma {:induction false} EveryOperand(o: Operand) returns (f: Factor)
    ensures FlatFactor(f) == o
    decreases o
  {
    match o.core {
      case Atomic(atom) => f := PrefixedFactor(o.prefixes, o.core, Named(atom));
      case Group(inner) =>
        var e := EveryChain(inner);
        f := PrefixedFactor(o.prefixes, o.core, Parenthesised(e));
    }
  }

  /** Every text of operands joined by infix operators is the text of an expression of the grammar. */
  lemma {:induction false} EveryChain(c: Chain) returns (e: OrExpr)
    ensures Flat(e) == c && Text(e) == Tokens(c)
    decreases c
  {
    match c {
      case One(o) =>
        var f := EveryOperand(o);
        LoneFactor(f);
        e := BitOnly(SumOnly(ProductOnly(FactorOnly(f))));
      case Snoc(init, op, o) =>
        var left := EveryChain(init);
        var f := EveryOperand(o);
        e := Push(left, op, f);
        PushFlat(left, op, f);
    }
    FlatText(e);
  }
}
