/** The spine-insertion parser builds the precedence tree of every chain of operands. */
module ParserProof {
  import opened Words
  import opened Expressions
  import opened Precedence

  // ---------------------------------------------------------------- what the parser keeps of prefixes

  /** The prefix that survives: each one replaces the one before it, and `+` is skipped. */
  function Keep(kept: seq<PrefixOp>, prefixes: seq<PrefixOp>): (r: seq<PrefixOp>)
    requires |kept| <= 1
    ensures |r| <= 1
    decreases |prefixes|
  {
    if prefixes == [] then kept
    else Keep(if prefixes[0] == Positive then kept else [prefixes[0]], prefixes[1..])
  }

  function EffectiveOperand(o: Operand): Operand
    decreases o, 0
  {
    Operand(Keep([], o.prefixes), match o.core case Atomic(_) => o.core case Group(inner) => Group(Effective(inner)))
  }

  /** The expression the parser sees: every operand with its last prefix operator only. */
  function Effective(c: Chain): Chain
    decreases c, 0
  {
    match c
    case One(o) => One(EffectiveOperand(o))
    case Snoc(init, op, o) => Snoc(Effective(init), op, EffectiveOperand(o))
  }

  // ---------------------------------------------------------------- runs

  lemma {:induction false} RunComposes(s: Parser, a: seq<Token>, b: seq<Token>)
    ensures Run(s, a + b) == match Run(s, a) case Ok(s') => Run(s', b) case Failed => Failed
    decreases |a|
  {
    if a == [] {
      assert a + b == b;
    } else {
      assert (a + b)[0] == a[0] && (a + b)[1..] == a[1..] + b;
      match Step(s, a[0])
      case Ok(s') => RunComposes(s', a[1..], b);
      case Failed =>
    }
  }

  lemma RunOne(s: Parser, token: Token)
    ensures Run(s, [token]) == Step(s, token)
  {
    assert [token][1..] == [];
  }

  /** A prefix operator waiting for its operand. */
  function Stub(base: int, kept: seq<PrefixOp>): Tree
    requires |kept| <= 1
  {
    if kept == [] then Null else Unary(base + PREFIX_PRIORITY, kept[0], Null)
  }

  lemma {:induction false} ParsePrefixes(s: Parser, context: Tree, kept: seq<PrefixOp>, prefixes: seq<PrefixOp>)
    requires |kept| <= 1 && s.isUnary && Below(context, s.base + PREFIX_PRIORITY)
             && s.root == Plug(context, Stub(s.base, kept))
    ensures Run(s, PrefixTokens(prefixes)) == Ok(s.(root := Plug(context, Stub(s.base, Keep(kept, prefixes)))))
    decreases |prefixes|
  {
    if prefixes != [] {
      var op, tokens := prefixes[0], PrefixTokens(prefixes);
      assert tokens[0] == PrefixToken(op) && tokens[1..] == PrefixTokens(prefixes[1..]);
      if op == Positive {
        ParsePrefixes(s, context, kept, prefixes[1..]);
      } else {
        PrefixSinks(context, Stub(s.base, kept), s.base + PREFIX_PRIORITY, op);
        var s' := Prefixed(s, op);
        assert Step(s, tokens[0]) == Ok(s');
        ParsePrefixes(s', context, [op], prefixes[1..]);
      }
    }
  }

  lemma {:induction false} WrappedStub(base: int, kept: seq<PrefixOp>, t: Tree)
    requires |kept| <= 1 && Positive !in kept
    ensures Plug(Stub(base, kept), t) == Wrapped(base, kept, t)
  {
    if kept != [] {
      assert kept[1..] == [];
    }
  }

  lemma {:induction false} KeptNotPositive(kept: seq<PrefixOp>, prefixes: seq<PrefixOp>)
    requires |kept| <= 1 && Positive !in kept
    ensures Positive !in Keep(kept, prefixes)
    decreases |prefixes|
  {
    if prefixes != [] {
      KeptNotPositive(if prefixes[0] == Positive then kept else [prefixes[0]], prefixes[1..]);
    }
  }

  /** From any state that waits for an operand, its tokens put its tree there. */
  lemma {:induction false} ParseOperand(s: Parser, o: Operand)
    requires s.isUnary && s.base > 0 && Below(s.root, s.base + PREFIX_PRIORITY)
    ensures Run(s, OperandTokens(o))
            == Ok(Parser(Plug(s.root, OperandTree(s.base, EffectiveOperand(o))), s.base, false))
    decreases o, 0
  {
    hide Run, Joined;
    var kept := Keep([], o.prefixes);
    var stub := Stub(s.base, kept);
    var s1 := s.(root := Plug(s.root, stub));
    BelowOpen(s.root, s.base + PREFIX_PRIORITY);
    assert s.root == Plug(s.root, Null) by { PlugNull(s.root); }
    ParsePrefixes(s, s.root, [], o.prefixes);
    KeptNotPositive([], o.prefixes);
    PlugBelow(s.root, stub, s.base + PREFIX_PRIORITY + 1) by {
      BelowMore(s.root, s.base + PREFIX_PRIORITY, s.base + PREFIX_PRIORITY + 1);
    }
    match o.core
    case Atomic(atom) =>
      RunComposes(s, PrefixTokens(o.prefixes), [TAtom(atom)]);
      RunOne(s1, TAtom(atom));
      BelowOpen(s1.root, s.base + PREFIX_PRIORITY + 1);
      PlugPlug(s.root, stub, Leaf(atom));
      WrappedStub(s.base, kept, Leaf(atom));
    case Group(inner) =>
      ParseGroup(s1, inner);
      var t := PrecedenceTree(s.base + 100, Effective(inner));
      RunComposes(s, PrefixTokens(o.prefixes), [TOpen] + Tokens(inner) + [TClose]);
      PlugPlug(s.root, stub, t);
      WrappedStub(s.base, kept, t);
  }

  lemma {:induction false} PlugNull(t: Tree)
    ensures Plug(t, Null) == t
  {
    if t.Unary? || t.Binary? {
      PlugNull(t.Child());
    }
  }

  lemma {:induction false} ParseGroup(s: Parser, inner: Chain)
    requires s.isUnary && s.base > 0 && Below(s.root, s.base + PREFIX_PRIORITY + 1)
    ensures Run(s, [TOpen] + Tokens(inner) + [TClose])
            == Ok(Parser(Plug(s.root, PrecedenceTree(s.base + 100, Effective(inner))), s.base, false))
    decreases inner, 1
  {
    hide Run, PrecedenceTree;
    var s1 := s.(base := s.base + 100);
    BelowMore(s.root, s.base + PREFIX_PRIORITY + 1, s1.base + 10);
    ParseChain(s1, inner);
    RunComposes(s, [TOpen] + Tokens(inner), [TClose]);
    RunComposes(s, [TOpen], Tokens(inner));
    RunOne(s, TOpen);
    RunOne(Parser(Plug(s.root, PrecedenceTree(s.base + 100, Effective(inner))), s1.base, false), TClose);
  }

  lemma {:induction false} ParseChain(s: Parser, c: Chain)
    requires s.isUnary && s.base > 0 && Below(s.root, s.base + 10)
    ensures Run(s, Tokens(c)) == Ok(Parser(Plug(s.root, PrecedenceTree(s.base, Effective(c))), s.base, false))
    decreases c, 0
  {
    hide Run, Joined;
    match c
    case One(o) =>
      BelowMore(s.root, s.base + 10, s.base + PREFIX_PRIORITY);
      ParseOperand(s, o);
      JoinedOne(s.base, [OperandTree(s.base, EffectiveOperand(o))]);
    case Snoc(init, op, o) =>
      ParseChain(s, init);
      ParseInfix(s, init, op, o);
  }

  lemma {:induction false} ParseInfix(s: Parser, init: Chain, op: InfixOp, o: Operand)
    requires s.isUnary && s.base > 0 && Below(s.root, s.base + 10)
    requires Run(s, Tokens(init)) == Ok(Parser(Plug(s.root, PrecedenceTree(s.base, Effective(init))), s.base, false))
    ensures Run(s, Tokens(Snoc(init, op, o)))
            == Ok(Parser(Plug(s.root, PrecedenceTree(s.base, Effective(Snoc(init, op, o)))), s.base, false))
    decreases o, 1
  {
    hide Run, Joined, OperandTree, InfixPriority;
    var t, e := PrecedenceTree(s.base, Effective(init)), EffectiveOperand(o);
    var prio := s.base + InfixPriority(op);
    var s1 := Parser(Plug(s.root, t), s.base, false);
    var s2 := Infixed(s1, op);
    PriorityBounds(op);
    RunComposes(s, Tokens(init) + [InfixToken(op)], OperandTokens(o));
    RunComposes(s, Tokens(init), [InfixToken(op)]);
    RunOne(s1, InfixToken(op));
    BelowMore(s.root, s.base + 10, prio);
    InfixSinks(s.root, t, prio, op);
    BelowMore(s.root, s.base + 10, s.base + PREFIX_PRIORITY);
    InfixLeavesBelow(t, prio, op, s.base + PREFIX_PRIORITY);
    PlugBelow(s.root, InsertInfix(t, prio, op), s.base + PREFIX_PRIORITY);
    ParseOperand(s2, o);
    BelowOpen(s.root, s.base + 10);
    PlugPlug(s.root, InsertInfix(t, prio, op), OperandTree(s.base, e));
    OperandsTight(s.base, Effective(init));
    JoinedSnoc(s.base, Ops(Effective(init)), OperandTrees(s.base, Effective(init)), op, OperandTree(s.base, e));
  }

  /**
   * On every expression of any length and nesting the parser accepts, and its tree is the precedence tree of
   * what it keeps.
   */
  lemma ParsesEffective(c: Chain)
    ensures Run(START, Tokens(c)) == Ok(Parser(PrecedenceTree(100, Effective(c)), 100, false))
  {
    ParseChain(START, c);
  }

  // ---------------------------------------------------------------- exactly when nothing is lost

  function Signs(prefixes: seq<PrefixOp>): nat {
    if prefixes == [] then 0 else Signs(prefixes[1..]) + if prefixes[0] == Positive then 0 else 1
  }

  predicate SingleOperand(o: Operand)
    decreases o, 0
  {
    Signs(o.prefixes) <= 1 && match o.core case Atomic(_) => true case Group(inner) => Single(inner)
  }

  /** No operand has two prefix operators in a row, `+` aside, unless parentheses part them. */
  predicate Single(c: Chain)
    decreases c, 0
  {
    match c
    case One(o) => SingleOperand(o)
    case Snoc(init, _, o) => Single(init) && SingleOperand(o)
  }

  lemma {:induction false} KeepSingle(base: int, kept: seq<PrefixOp>, prefixes: seq<PrefixOp>, t: Tree)
    requires |kept| <= 1 && Positive !in kept && |kept| + Signs(prefixes) <= 1
    ensures Wrapped(base, Keep(kept, prefixes), t) == Wrapped(base, kept, Wrapped(base, prefixes, t))
    decreases |prefixes|
  {
    if prefixes != [] {
      if prefixes[0] == Positive {
        KeepSingle(base, kept, prefixes[1..], t);
      } else {
        KeepSingle(base, [prefixes[0]], prefixes[1..], t);
        assert [prefixes[0]][1..] == [];
      }
    } else if kept != [] {
      assert kept[1..] == [];
    }
  }

  lemma {:induction false} SingleOperandKept(base: int, o: Operand)
    requires SingleOperand(o)
    ensures OperandTree(base, EffectiveOperand(o)) == OperandTree(base, o)
    decreases o, 0
  {
    hide Joined;
    if o.core.Group? {
      SingleKept(base + 100, o.core.inner);
      KeepSingle(base, [], o.prefixes, PrecedenceTree(base + 100, o.core.inner));
    } else {
      KeepSingle(base, [], o.prefixes, Leaf(o.core.atom));
    }
  }

  lemma {:induction false} SingleKept(base: int, c: Chain)
    requires Single(c)
    ensures Ops(Effective(c)) == Ops(c) && OperandTrees(base, Effective(c)) == OperandTrees(base, c)
    ensures PrecedenceTree(base, Effective(c)) == PrecedenceTree(base, c)
    decreases c, 0
  {
    hide Joined, OperandTree;
    match c
    case One(o) => SingleOperandKept(base, o);
    case Snoc(init, _, o) =>
      SingleKept(base, init);
      SingleOperandKept(base, o);
  }

  // Unary nodes of a tree, against prefix operators of an expression.

  function Unaries(t: Tree): nat {
    match t
    case Unary(_, _, a) => Unaries(a) + 1
    case Binary(_, _, a, b) => Unaries(a) + Unaries(b)
    case _ => 0
  }

  function UnariesOf(trees: seq<Tree>): nat {
    if trees == [] then 0 else Unaries(trees[0]) + UnariesOf(trees[1..])
  }

  lemma {:induction false} UnariesSplit(trees: seq<Tree>, k: nat)
    requires k <= |trees|
    ensures UnariesOf(trees) == UnariesOf(trees[..k]) + UnariesOf(trees[k..])
    decreases k
  {
    if k > 0 {
      UnariesSplit(trees[1..], k - 1);
      assert trees[..k][1..] == trees[1..][..k - 1] && trees[k..] == trees[1..][k - 1..];
    }
  }

  lemma UnariesOne(trees: seq<Tree>)
    requires |trees| == 1
    ensures UnariesOf(trees) == Unaries(trees[0])
  {
    assert trees[1..] == [];
  }

  lemma {:induction false} UnariesJoined(base: int, ops: seq<InfixOp>, trees: seq<Tree>)
    requires |trees| == |ops| + 1
    ensures Unaries(Joined(base, ops, trees)) == UnariesOf(trees)
    decreases |ops|
  {
    hide Joined, LastLowest, InfixPriority, UnariesOf;
    if ops == [] {
      JoinedOne(base, trees);
      UnariesOne(trees);
    } else {
      var i := LastLowest(ops);
      JoinedSplits(base, ops, trees);
      UnariesJoined(base, ops[..i], trees[..i + 1]);
      UnariesJoined(base, ops[i + 1..], trees[i + 1..]);
      UnariesSplit(trees, i + 1);
    }
  }

  function OperandSigns(o: Operand): nat
    decreases o, 0
  {
    Signs(o.prefixes) + match o.core case Atomic(_) => 0 case Group(inner) => ChainSigns(inner)
  }

  function ChainSigns(c: Chain): nat
    decreases c, 0
  {
    match c
    case One(o) => OperandSigns(o)
    case Snoc(init, _, o) => ChainSigns(init) + OperandSigns(o)
  }

  lemma {:induction false} UnariesWrapped(base: int, prefixes: seq<PrefixOp>, t: Tree)
    ensures Unaries(Wrapped(base, prefixes, t)) == Signs(prefixes) + Unaries(t)
    decreases |prefixes|
  {
    if prefixes != [] {
      UnariesWrapped(base, prefixes[1..], t);
    }
  }

  lemma {:induction false} UnariesOperand(base: int, o: Operand)
    ensures Unaries(OperandTree(base, o)) == OperandSigns(o)
    decreases o, 0
  {
    hide Joined;
    if o.core.Group? {
      UnariesChain(base + 100, o.core.inner);
      UnariesWrapped(base, o.prefixes, PrecedenceTree(base + 100, o.core.inner));
    } else {
      UnariesWrapped(base, o.prefixes, Leaf(o.core.atom));
    }
  }

  lemma {:induction false} UnariesOperands(base: int, c: Chain)
    ensures UnariesOf(OperandTrees(base, c)) == ChainSigns(c)
    decreases c, 0
  {
    hide OperandTree;
    match c
    case One(o) =>
      UnariesOperand(base, o);
      assert [OperandTree(base, o)][1..] == [];
    case Snoc(init, _, o) =>
      UnariesOperands(base, init);
      UnariesOperand(base, o);
      var trees := OperandTrees(base, c);
      UnariesSplit(trees, |trees| - 1);
      assert trees[..|trees| - 1] == OperandTrees(base, init) && trees[|trees| - 1..] == [OperandTree(base, o)];
      assert [OperandTree(base, o)][1..] == [];
  }

  lemma {:induction false} UnariesChain(base: int, c: Chain)
    ensures Unaries(PrecedenceTree(base, c)) == ChainSigns(c)
    decreases c, 1
  {
    hide Joined, OperandTrees;
    UnariesJoined(base, Ops(c), OperandTrees(base, c));
    UnariesOperands(base, c);
  }

  lemma {:induction false} KeepSigns(kept: seq<PrefixOp>, prefixes: seq<PrefixOp>)
    requires |kept| <= 1 && Positive !in kept
    ensures Signs(Keep(kept, prefixes)) == if Signs(prefixes) == 0 then |kept| else 1
    decreases |prefixes|
  {
    if prefixes != [] {
      KeepSigns(if prefixes[0] == Positive then kept else [prefixes[0]], prefixes[1..]);
    } else if kept != [] {
      assert kept[1..] == [];
    }
  }

  lemma {:induction false} OperandLoses(o: Operand)
    ensures OperandSigns(EffectiveOperand(o)) <= OperandSigns(o)
    ensures OperandSigns(EffectiveOperand(o)) == OperandSigns(o) ==> SingleOperand(o)
    decreases o, 0
  {
    KeepSigns([], o.prefixes);
    if o.core.Group? {
      ChainLoses(o.core.inner);
    }
  }

  lemma {:induction false} ChainLoses(c: Chain)
    ensures ChainSigns(Effective(c)) <= ChainSigns(c)
    ensures ChainSigns(Effective(c)) == ChainSigns(c) ==> Single(c)
    decreases c, 0
  {
    match c
    case One(o) => OperandLoses(o);
    case Snoc(init, _, o) =>
      ChainLoses(init);
      OperandLoses(o);
  }

  /** The parser builds the precedence tree exactly when no operand has two prefix operators in a row. */
  lemma ParserCorrectIff(c: Chain)
    ensures Run(START, Tokens(c)) == Ok(Parser(PrecedenceTree(100, c), 100, false)) <==> Single(c)
  {
    hide PrecedenceTree, Run;
    ParsesEffective(c);
    if Single(c) {
      SingleKept(100, c);
    } else {
      UnariesChain(100, c);
      UnariesChain(100, Effective(c));
      ChainLoses(c);
    }
  }

  // ---------------------------------------------------------------- the spine, on any input

  /** Priorities grow strictly down the right spine, from above `low`. */
  predicate Increasing(t: Tree, low: int) {
    match t
    case Unary(p, _, a) => p > low && Increasing(a, p)
    case Binary(p, _, _, b) => p > low && Increasing(b, p)
    case _ => true
  }

  lemma {:induction false} InfixKeepsIncreasing(t: Tree, low: int, prio: int, op: InfixOp)
    requires Increasing(t, low) && low < prio
    ensures Increasing(InsertInfix(t, prio, op), low)
  {
    if !(t.Null? || t.Leaf? || t.Priority() >= prio) {
      InfixKeepsIncreasing(t.Child(), t.Priority(), prio, op);
    }
  }

  lemma {:induction false} PrefixKeepsIncreasing(t: Tree, low: int, prio: int, op: PrefixOp)
    requires Increasing(t, low) && low < prio
    ensures Increasing(InsertPrefix(t, prio, op), low)
  {
    if !(t.Null? || t.Leaf? || t.Priority() >= prio) {
      PrefixKeepsIncreasing(t.Child(), t.Priority(), prio, op);
    }
  }

  lemma {:induction false} PlugKeepsIncreasing(t: Tree, low: int, atom: Atom)
    requires Increasing(t, low)
    ensures Increasing(Plug(t, Leaf(atom)), low)
  {
    if t.Unary? || t.Binary? {
      PlugKeepsIncreasing(t.Child(), t.Priority(), atom);
    }
  }

  /** After any tokens whatever, well-formed or not, the right spine is strictly increasing. */
  lemma {:induction false} SpineIncreases(s: Parser, tokens: seq<Token>)
    requires Increasing(s.root, 0) && s.base > 0
    ensures
      match Run(s, tokens)
      case Ok(s') => Increasing(s'.root, 0) && s'.base > 0
      case Failed => true
    decreases |tokens|
  {
    if tokens != [] {
      var token := tokens[0];
      if token.TAtom? {
        PlugKeepsIncreasing(s.root, 0, token.atom);
      }
      forall op: InfixOp ensures Increasing(Infixed(s, op).root, 0) {
        InfixKeepsIncreasing(s.root, 0, s.base + InfixPriority(op), op);
      }
      forall op: PrefixOp ensures Increasing(Prefixed(s, op).root, 0) {
        PrefixKeepsIncreasing(s.root, 0, s.base + PREFIX_PRIORITY, op);
      }
      match Step(s, token)
      case Ok(s') => SpineIncreases(s', tokens[1..]);
      case Failed =>
    }
  }

  // ---------------------------------------------------------------- relocation operators

  /** %hi and %lo of a value rebuild its low 32 bits, as lui and addi do. */
  lemma HiLoRebuild(a: bv64, instAddr: bv64)
    ensures ((ApplyPrefix(Relocate(Hi), a, instAddr) << 12) + ApplyPrefix(Relocate(Lo), a, instAddr)) & 0xffff_ffff
            == a & 0xffff_ffff
  {
    HiLoBits(a);
  }

  lemma HiLoBits(a: bv64)
    ensures (((((a + 0x800) >> 12) & 0xf_ffff) << 12) + (((a & 0xfff) ^ 0x800) - 0x800)) & 0xffff_ffff
            == a & 0xffff_ffff
  {
  }

  /**
   * %pcrel_hi at one instruction and %pcrel_lo at the next rebuild the distance from the first, as auipc and
   * addi do.
   */
  lemma PcrelRebuild(a: bv64, instAddr: bv64)
    ensures ((ApplyPrefix(Relocate(PcrelHi), a, instAddr) << 12)
             + ApplyPrefix(Relocate(PcrelLo), a, instAddr + 4)) & 0xffff_ffff
            == (a - instAddr) & 0xffff_ffff
  {
    PcrelBits(a - instAddr);
  }

  lemma PcrelBits(d: bv64)
    ensures (((((d >> 12) & 0xf_ffff) + ((d >> 11) & 1)) << 12) + (((d & 0xfff) ^ 0x800) - 0x800)) & 0xffff_ffff
            == d & 0xffff_ffff
  {
  }
}
