/** Assembler expressions: nodes of the parse tree, the parser's insertion rules and evaluation. */
module Expressions {
  import opened Words

  const INT_MAX := 0x7fff_ffff

  datatype Atom = Number(value: bv64) | Symbol(name: string)

  datatype Modifier = Hi | Lo | PcrelHi | PcrelLo

  datatype PrefixOp = Positive | Negate | Complement | Relocate(modifier: Modifier)

  datatype InfixOp = Or | And | Xor | Plus | Minus | Times | Divide

  /** Characters and words as the parser's loop meets them; `Bad` is anything it rejects on sight. */
  datatype Token =
    | TAtom(atom: Atom)
    | TMinus | TPlus | TTilde
    | TModifier(modifier: Modifier)
    | TInfix(op: InfixOp)
    | TOpen | TClose
    | TBad

  /** `Null` is an operand that is still missing. */
  datatype Tree =
    | Null
    | Leaf(atom: Atom)
    | Unary(prio: int, prefix: PrefixOp, a: Tree)
    | Binary(prio: int, infix: InfixOp, left: Tree, right: Tree)
  {
    function Priority(): int {
      match this
      case Unary(p, _, _) => p
      case Binary(p, _, _, _) => p
      case _ => INT_MAX
    }

    function Child(): Tree {
      match this
      case Unary(_, _, a) => a
      case Binary(_, _, _, b) => b
      case _ => Null
    }

    function WithChild(t: Tree): Tree
      requires Unary? || Binary?
    {
      match this
      case Unary(p, op, _) => Unary(p, op, t)
      case Binary(p, op, a, _) => Binary(p, op, a, t)
    }
  }

  /** Priority of an infix operator above the base of its nesting level. */
  function InfixPriority(op: InfixOp): int {
    match op
    case Or => 10
    case And => 15
    case Xor => 15
    case Plus => 20
    case Minus => 20
    case Times => 30
    case Divide => 30
  }

  const PREFIX_PRIORITY := 90

  // ---------------------------------------------------------------- insertion into the right spine

  /** Whether the last node of the right spine still takes an operand. */
  predicate Open(t: Tree) {
    match t
    case Null => true
    case Leaf(_) => false
    case Unary(_, _, a) => Open(a)
    case Binary(_, _, _, b) => Open(b)
  }

  /** Gives the missing operand at the end of the right spine. */
  function Plug(t: Tree, operand: Tree): Tree {
    match t
    case Null => operand
    case Leaf(_) => t
    case Unary(p, op, a) => Unary(p, op, Plug(a, operand))
    case Binary(p, op, a, b) => Binary(p, op, a, Plug(b, operand))
  }

  /** The operator goes below the nodes that bind less; a binary one takes what it displaces as its left operand. */
  function InsertInfix(t: Tree, prio: int, op: InfixOp): Tree
    decreases t
  {
    if t.Null? || t.Leaf? || t.Priority() >= prio then Binary(prio, op, t, Null)
    else t.WithChild(InsertInfix(t.Child(), prio, op))
  }

  /** A prefix operator replaces what it displaces. */
  function InsertPrefix(t: Tree, prio: int, op: PrefixOp): Tree
    decreases t
  {
    if t.Null? || t.Leaf? || t.Priority() >= prio then Unary(prio, op, Null)
    else t.WithChild(InsertPrefix(t.Child(), prio, op))
  }

  // ---------------------------------------------------------------- the parser's loop

  datatype Result<T> = Ok(value: T) | Failed {
    predicate IsFailure() {
      Failed?
    }

    function PropagateFailure<U>(): Result<U>
      requires Failed?
    {
      Failed
    }

    function Extract(): T
      requires Ok?
    {
      value
    }
  }

  datatype Parser = Parser(root: Tree, base: int, isUnary: bool)

  const START := Parser(Null, 100, true)

  function Prefixed(s: Parser, op: PrefixOp): Parser {
    s.(root := InsertPrefix(s.root, s.base + PREFIX_PRIORITY, op))
  }

  function Infixed(s: Parser, op: InfixOp): Parser {
    s.(root := InsertInfix(s.root, s.base + InfixPriority(op), op), isUnary := true)
  }

  function Step(s: Parser, token: Token): Result<Parser> {
    match token
    case TAtom(atom) => if Open(s.root) then Ok(s.(root := Plug(s.root, Leaf(atom)), isUnary := false)) else Failed
    case TMinus => Ok(if s.isUnary then Prefixed(s, Negate) else Infixed(s, Minus))
    case TPlus => Ok(if s.isUnary then s else Infixed(s, Plus))
    case TTilde => Ok(Prefixed(s, Complement))
    case TModifier(m) => Ok(Prefixed(s, Relocate(m)))
    case TInfix(op) => Ok(Infixed(s, op))
    case TOpen => Ok(s.(base := s.base + 100))
    case TClose => if s.base - 100 <= 0 then Failed else Ok(s.(base := s.base - 100))
    case TBad => Failed
  }

  function Run(s: Parser, tokens: seq<Token>): Result<Parser>
    decreases |tokens|
  {
    if tokens == [] then Ok(s)
    else match Step(s, tokens[0])
      case Ok(s') => Run(s', tokens[1..])
      case Failed => Failed
  }

  /** The loop of the parser: one token a turn, the tree changed at one place of its right spine. */
  method Parse(tokens: seq<Token>) returns (ok: bool, root: Tree)
    ensures ok == Run(START, tokens).Ok?
    ensures ok ==> root == Run(START, tokens).value.root
  {
    var base, isUnary := 100, true;
    root := Null;
    var i := 0;
    while i < |tokens|
      invariant 0 <= i <= |tokens|
      invariant Run(START, tokens) == Run(Parser(root, base, isUnary), tokens[i..])
    {
      assert tokens[i..][0] == tokens[i] && tokens[i..][1..] == tokens[i + 1..];
      var token := tokens[i];
      if token.TAtom? {
        if !Open(root) {
          return false, root;
        }
        root := Plug(root, Leaf(token.atom));
        isUnary := false;
      } else if token.TBad? {
        return false, root;
      } else if token.TOpen? {
        base := base + 100;
      } else if token.TClose? {
        if base - 100 <= 0 {
          return false, root;
        }
        base := base - 100;
      } else if token.TTilde? || token.TModifier? || (token.TMinus? && isUnary) {
        var op := if token.TTilde? then Complement else if token.TModifier? then Relocate(token.modifier) else Negate;
        root := InsertPrefix(root, base + PREFIX_PRIORITY, op);
      } else if !(token.TPlus? && isUnary) {
        var op := if token.TMinus? then Minus else if token.TPlus? then Plus else token.op;
        root := InsertInfix(root, base + InfixPriority(op), op);
        isUnary := true;
      }
      i := i + 1;
    }
    return true, root;
  }

  // ---------------------------------------------------------------- evaluation

  /** Bits 31 to 12. */
  function Upper20(a: bv64): bv64 {
    (a >> 12) & 0xf_ffff
  }

  function Bit11(a: bv64): bv64 {
    (a >> 11) & 1
  }

  /** Bits 11 to 0, sign-extended. */
  function Lower12(a: bv64): bv64 {
    ((a & 0xfff) ^ 0x800) - 0x800
  }

  function ApplyPrefix(op: PrefixOp, a: bv64, instAddr: bv64): bv64 {
    match op
    case Positive => a
    case Negate => Difference(0, a)
    case Complement => NotBits(a)
    case Relocate(Hi) => Upper20(Add(a, 0x800))
    case Relocate(Lo) => Lower12(a)
    case Relocate(PcrelHi) => Add(Upper20(Difference(a, instAddr)), Bit11(Difference(a, instAddr)))
    case Relocate(PcrelLo) => Lower12(Add(Difference(a, instAddr), 4))
  }

  /** Signed 64-bit arithmetic; dividing by zero has no value. */
  function ApplyInfix(op: InfixOp, a: bv64, b: bv64): Result<bv64> {
    match op
    case Or => Ok(OrBits(a, b))
    case And => Ok(AndBits(a, b))
    case Xor => Ok(XorBits(a, b))
    case Plus => Ok(Add(a, b))
    case Minus => Ok(Difference(a, b))
    case Times => Ok(Product(a, b))
    case Divide => if Signed(b) == 0 then Failed else Ok(OfInt(TruncatingDiv(Signed(a), Signed(b))))
  }

  type Symbols = map<string, bv64>

  function EvalAtom(atom: Atom, symbols: Symbols): Result<bv64> {
    match atom
    case Number(v) => Ok(v)
    case Symbol(n) => if n in symbols then Ok(symbols[n]) else Failed
  }

  function Eval(t: Tree, symbols: Symbols, instAddr: bv64): Result<bv64> {
    match t
    case Null => Failed
    case Leaf(atom) => EvalAtom(atom, symbols)
    case Unary(_, op, a) =>
      (match Eval(a, symbols, instAddr)
       case Ok(v) => Ok(ApplyPrefix(op, v, instAddr))
       case Failed => Failed)
    case Binary(_, op, a, b) =>
      match (Eval(a, symbols, instAddr), Eval(b, symbols, instAddr))
      case (Ok(v), Ok(w)) => ApplyInfix(op, v, w)
      case _ => Failed
  }
}
