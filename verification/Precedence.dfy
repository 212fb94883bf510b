/**
 * The parser has no grammar. These are the texts it is for, as chains of operands, and the left-associative
 * precedence tree of a chain with the parser's own priorities.
 */
module Precedence {
  import opened Words
  import opened Expressions

  /** Operands joined by infix operators, at one level of parentheses. */
  datatype Chain = One(operand: Operand) | Snoc(init: Chain, op: InfixOp, last: Operand)

  /** A core with the prefix operators in front of it, outermost first. */
  datatype Operand = Operand(prefixes: seq<PrefixOp>, core: Core)

  datatype Core = Atomic(atom: Atom) | Group(inner: Chain)

  // ---------------------------------------------------------------- text

  function PrefixToken(op: PrefixOp): Token {
    match op
    case Positive => TPlus
    case Negate => TMinus
    case Complement => TTilde
    case Relocate(m) => TModifier(m)
  }

  function PrefixTokens(ops: seq<PrefixOp>): seq<Token> {
    if ops == [] then [] else [PrefixToken(ops[0])] + PrefixTokens(ops[1..])
  }

  function InfixToken(op: InfixOp): Token {
    match op
    case Plus => TPlus
    case Minus => TMinus
    case _ => TInfix(op)
  }

  function OperandTokens(o: Operand): seq<Token> {
    PrefixTokens(o.prefixes)
    + match o.core
      case Atomic(atom) => [TAtom(atom)]
      case Group(inner) => [TOpen] + Tokens(inner) + [TClose]
  }

  function Tokens(c: Chain): seq<Token> {
    match c
    case One(o) => OperandTokens(o)
    case Snoc(init, op, o) => Tokens(init) + [InfixToken(op)] + OperandTokens(o)
  }

  // ---------------------------------------------------------------- the precedence tree

  /** The rightmost of the operators that bind least. */
  function LastLowest(ops: seq<InfixOp>): (i: nat)
    requires ops != []
    ensures i < |ops|
    ensures forall j :: 0 <= j < |ops| ==> InfixPriority(ops[i]) <= InfixPriority(ops[j])
    ensures forall j :: i < j < |ops| ==> InfixPriority(ops[i]) < InfixPriority(ops[j])
  {
    var n := |ops| - 1;
    if n == 0 then 0
    else
      var i := LastLowest(ops[..n]);
      assert forall j :: 0 <= j < n ==> ops[..n][j] == ops[j];
      if InfixPriority(ops[n]) <= InfixPriority(ops[i]) then n else i
  }

  /** Splits at the rightmost loosest operator, so that equal ones associate to the left. */
  function Joined(base: int, ops: seq<InfixOp>, trees: seq<Tree>): Tree
    requires |trees| == |ops| + 1
    decreases |ops|
  {
    if ops == [] then trees[0]
    else
      var i := LastLowest(ops);
      Binary(base + InfixPriority(ops[i]), ops[i],
             Joined(base, ops[..i], trees[..i + 1]), Joined(base, ops[i + 1..], trees[i + 1..]))
  }

  function Wrapped(base: int, prefixes: seq<PrefixOp>, t: Tree): Tree {
    if prefixes == [] then t
    else if prefixes[0] == Positive then Wrapped(base, prefixes[1..], t)
    else Unary(base + PREFIX_PRIORITY, prefixes[0], Wrapped(base, prefixes[1..], t))
  }

  function Ops(c: Chain): seq<InfixOp> {
    match c
    case One(_) => []
    case Snoc(init, op, _) => Ops(init) + [op]
  }

  function OperandTree(base: int, o: Operand): Tree
    decreases o, 0
  {
    Wrapped(base, o.prefixes,
            match o.core
            case Atomic(atom) => Leaf(atom)
            case Group(inner) => PrecedenceTree(base + 100, inner))
  }

  function OperandTrees(base: int, c: Chain): (trees: seq<Tree>)
    ensures |trees| == |Ops(c)| + 1
    decreases c, 0
  {
    match c
    case One(o) => [OperandTree(base, o)]
    case Snoc(init, _, o) => OperandTrees(base, init) + [OperandTree(base, o)]
  }

  function PrecedenceTree(base: int, c: Chain): Tree
    decreases c, 1
  {
    Joined(base, Ops(c), OperandTrees(base, c))
  }

  // ---------------------------------------------------------------- spines

  /** An open right spine of operators that all bind less than `bound`. */
  predicate Below(t: Tree, bound: int) {
    match t
    case Null => true
    case Leaf(_) => false
    case Unary(p, _, a) => p < bound && Below(a, bound)
    case Binary(p, _, _, b) => p < bound && Below(b, bound)
  }

  lemma {:induction false} BelowOpen(t: Tree, bound: int)
    requires Below(t, bound)
    ensures Open(t)
  {
    if !t.Null? {
      BelowOpen(t.Child(), bound);
    }
  }

  lemma {:induction false} BelowMore(t: Tree, low: int, high: int)
    requires Below(t, low) && low <= high
    ensures Below(t, high)
  {
    if !t.Null? {
      BelowMore(t.Child(), low, high);
    }
  }

  lemma {:induction false} PlugBelow(t: Tree, u: Tree, bound: int)
    requires Below(t, bound) && Below(u, bound)
    ensures Below(Plug(t, u), bound)
  {
    if !t.Null? {
      PlugBelow(t.Child(), u, bound);
    }
  }

  lemma {:induction false} PlugPlug(t: Tree, u: Tree, v: Tree)
    requires Open(t)
    ensures Plug(Plug(t, u), v) == Plug(t, Plug(u, v))
  {
    if !t.Null? {
      PlugPlug(t.Child(), u, v);
    }
  }

  /** An operator sinks through everything that binds less. */
  lemma {:induction false} InfixSinks(t: Tree, u: Tree, prio: int, op: InfixOp)
    requires Below(t, prio)
    ensures InsertInfix(Plug(t, u), prio, op) == Plug(t, InsertInfix(u, prio, op))
  {
    if !t.Null? {
      InfixSinks(t.Child(), u, prio, op);
    }
  }

  lemma {:induction false} PrefixSinks(t: Tree, u: Tree, prio: int, op: PrefixOp)
    requires Below(t, prio)
    ensures InsertPrefix(Plug(t, u), prio, op) == Plug(t, InsertPrefix(u, prio, op))
  {
    if !t.Null? {
      PrefixSinks(t.Child(), u, prio, op);
    }
  }

  lemma {:induction false} InfixLeavesBelow(t: Tree, prio: int, op: InfixOp, bound: int)
    requires prio < bound
    ensures Below(InsertInfix(t, prio, op), bound)
  {
    if !(t.Null? || t.Leaf? || t.Priority() >= prio) {
      InfixLeavesBelow(t.Child(), prio, op, bound);
    }
  }

  // ---------------------------------------------------------------- one operator more

  /** A tree no infix operator of the level can enter. */
  predicate Tight(t: Tree, bound: int) {
    t.Leaf? || (!t.Null? && t.Priority() >= bound)
  }

  lemma LastLowestSnoc(ops: seq<InfixOp>, op: InfixOp)
    requires ops != []
    ensures LastLowest(ops + [op])
            == if InfixPriority(op) <= InfixPriority(ops[LastLowest(ops)]) then |ops| else LastLowest(ops)
  {
    assert (ops + [op])[..|ops|] == ops;
  }

  /** The tree of a chain split at operator `i`. */
  function SplitAt(base: int, ops: seq<InfixOp>, trees: seq<Tree>, i: nat): Tree
    requires |trees| == |ops| + 1 && i < |ops|
  {
    Binary(base + InfixPriority(ops[i]), ops[i], Joined(base, ops[..i], trees[..i + 1]),
           Joined(base, ops[i + 1..], trees[i + 1..]))
  }

  lemma JoinedSplits(base: int, ops: seq<InfixOp>, trees: seq<Tree>)
    requires |trees| == |ops| + 1 && ops != []
    ensures Joined(base, ops, trees) == SplitAt(base, ops, trees, LastLowest(ops))
  {
    hide LastLowest, InfixPriority;
  }

  lemma SplitLast(base: int, ops: seq<InfixOp>, trees: seq<Tree>, op: InfixOp, t: Tree)
    requires |trees| == |ops| + 1
    ensures SplitAt(base, ops + [op], trees + [t], |ops|)
            == Binary(base + InfixPriority(op), op, Joined(base, ops, trees), t)
  {
    var ops', trees' := ops + [op], trees + [t];
    assert ops'[..|ops|] == ops && trees'[..|ops| + 1] == trees && ops'[|ops| + 1..] == []
           && trees'[|ops| + 1..] == [t];
  }

  lemma SplitInside(base: int, ops: seq<InfixOp>, trees: seq<Tree>, op: InfixOp, t: Tree, i: nat)
    requires |trees| == |ops| + 1 && i < |ops|
    ensures SplitAt(base, ops + [op], trees + [t], i)
            == Binary(base + InfixPriority(ops[i]), ops[i], Joined(base, ops[..i], trees[..i + 1]),
                      Joined(base, ops[i + 1..] + [op], trees[i + 1..] + [t]))
  {
    hide Joined;
    var ops', trees' := ops + [op], trees + [t];
    assert ops'[..i] == ops[..i] && trees'[..i + 1] == trees[..i + 1];
    assert ops'[i + 1..] == ops[i + 1..] + [op] && trees'[i + 1..] == trees[i + 1..] + [t];
  }

  lemma InsertedOnTop(tree: Tree, prio: int, op: InfixOp, t: Tree)
    requires Tight(tree, prio)
    ensures Plug(InsertInfix(tree, prio, op), t) == Binary(prio, op, tree, t)
  {
  }

  lemma InsertedInside(q: int, r: InfixOp, left: Tree, right: Tree, prio: int, op: InfixOp, t: Tree)
    requires q < prio
    ensures Plug(InsertInfix(Binary(q, r, left, right), prio, op), t)
            == Binary(q, r, left, Plug(InsertInfix(right, prio, op), t))
  {
  }

  /** Appending an operator and its operand to a chain is inserting them into the tree of the chain. */
  lemma {:induction false} JoinedSnoc(base: int, ops: seq<InfixOp>, trees: seq<Tree>, op: InfixOp, t: Tree)
    requires |trees| == |ops| + 1
    requires forall k :: 0 <= k < |trees| ==> Tight(trees[k], base + PREFIX_PRIORITY)
    ensures Joined(base, ops + [op], trees + [t])
            == Plug(InsertInfix(Joined(base, ops, trees), base + InfixPriority(op), op), t)
    decreases |ops|
  {
    hide Joined, LastLowest, InfixPriority, Plug, InsertInfix;
    var tree, prio := Joined(base, ops, trees), base + InfixPriority(op);
    PriorityBounds(op);
    JoinedSplits(base, ops + [op], trees + [t]);
    if ops == [] {
      assert LastLowest(ops + [op]) == 0;
      SplitLast(base, ops, trees, op, t);
      JoinedOne(base, trees);
      assert Tight(trees[0], base + PREFIX_PRIORITY);
      InsertedOnTop(tree, prio, op, t);
    } else {
      var i := LastLowest(ops);
      JoinedSplits(base, ops, trees);
      LastLowestSnoc(ops, op);
      if InfixPriority(op) <= InfixPriority(ops[i]) {
        SplitLast(base, ops, trees, op, t);
        InsertedOnTop(tree, prio, op, t);
      } else {
        SplitInside(base, ops, trees, op, t, i);
        JoinedSnoc(base, ops[i + 1..], trees[i + 1..], op, t);
        InsertedInside(tree.prio, tree.infix, tree.left, tree.right, prio, op, t);
      }
    }
  }

  lemma PriorityBounds(op: InfixOp)
    ensures 10 <= InfixPriority(op) <= 30
  {
  }

  lemma JoinedOne(base: int, trees: seq<Tree>)
    requires |trees| == 1
    ensures Joined(base, [], trees) == trees[0]
  {
  }

  lemma {:induction false} JoinedTight(base: int, ops: seq<InfixOp>, trees: seq<Tree>, bound: int)
    requires |trees| == |ops| + 1 && bound <= base + 10
    requires forall k :: 0 <= k < |trees| ==> Tight(trees[k], base + PREFIX_PRIORITY)
    ensures Tight(Joined(base, ops, trees), bound)
  {
  }

  lemma {:induction false} WrappedTight(base: int, prefixes: seq<PrefixOp>, t: Tree)
    requires Tight(t, base + PREFIX_PRIORITY)
    ensures Tight(Wrapped(base, prefixes, t), base + PREFIX_PRIORITY)
  {
    if prefixes != [] && prefixes[0] == Positive {
      WrappedTight(base, prefixes[1..], t);
    }
  }

  lemma {:induction false} OperandTight(base: int, o: Operand)
    ensures Tight(OperandTree(base, o), base + PREFIX_PRIORITY)
    decreases o, 0
  {
    if o.core.Group? {
      OperandsTight(base + 100, o.core.inner);
      JoinedTight(base + 100, Ops(o.core.inner), OperandTrees(base + 100, o.core.inner), base + PREFIX_PRIORITY);
      WrappedTight(base, o.prefixes, PrecedenceTree(base + 100, o.core.inner));
    } else {
      WrappedTight(base, o.prefixes, Leaf(o.core.atom));
    }
  }

  lemma {:induction false} OperandsTight(base: int, c: Chain)
    ensures forall k :: 0 <= k < |OperandTrees(base, c)| ==> Tight(OperandTrees(base, c)[k], base + PREFIX_PRIORITY)
    decreases c, 0
  {
    match c
    case One(o) => OperandTight(base, o);
    case Snoc(init, _, o) =>
      OperandsTight(base, init);
      OperandTight(base, o);
  }
}
