/** The combined ALU: basic, multiplication and pass-through components. */
module Alu {
  import opened Words
  import HighMultiply

  datatype AluOp = ADD | SLL | SLT | SLTU | XOR | SR | OR | AND
  datatype MulOp = MUL | MULH | MULHSU | MULHU | DIV | DIVU | REM | REMU
  datatype Component = BasicAlu(aluOp: AluOp) | Multiplier(mulOp: MulOp) | Pass

  function FromBool(b: bool): bv64 {
    if b then 1 else 0
  }

  /** The bits of the second operand that a shift uses. */
  function Amount(b: bv64): bv6 {
    (b & 63) as bv6
  }

  function Amount32(b: bv64): bv6 {
    (b & 31) as bv6
  }

  function Operate64(op: AluOp, modified: bool, a: bv64, b: bv64): bv64 {
    match op
    case ADD => if modified then Difference(a, b) else Add(a, b)
    case SLL => ShiftedLeft(a, Amount(b))
    case SLT => FromBool(Signed(a) < Signed(b))
    case SLTU => FromBool(Less(a, b))
    case XOR => XorBits(a, b)
    case SR => if modified then ArithmeticShiftRight(a, Amount(b)) else ShiftedRight(a, Amount(b))
    case OR => OrBits(a, b)
    case AND => if modified then ClearBits(a, b) else AndBits(a, b)
  }

  /** The 32-bit operations see the low halves and sign-extend their 32-bit result. */
  function Operate32(op: AluOp, modified: bool, a: bv64, b: bv64): bv64 {
    SignExtend32(OperateLow(op, modified, Low32(a), Low32(b)))
  }

  function OperateLow(op: AluOp, modified: bool, a: bv64, b: bv64): bv64 {
    match op
    case ADD => if modified then Difference(a, b) else Add(a, b)
    case SLL => ShiftedLeft(a, Amount32(b))
    case SLT => FromBool(Signed(SignExtend32(a)) < Signed(SignExtend32(b)))
    case SLTU => FromBool(Less(a, b))
    case XOR => XorBits(a, b)
    case SR => if modified then ArithmeticShiftRight(SignExtend32(a), Amount32(b)) else ShiftedRight(a, Amount32(b))
    case OR => OrBits(a, b)
    case AND => if modified then ClearBits(a, b) else AndBits(a, b)
  }

  function Multiply64(op: MulOp, a: bv64, b: bv64): bv64 {
    match op
    case MUL => Product(a, b)
    case MULH => OfInt(HighMultiply.MulhWide(Signed(a), Signed(b)))
    case MULHSU => OfInt(HighMultiply.MulhWide(Signed(a), Unsigned(b)))
    case MULHU => OfInt(HighMultiply.MulhWide(Unsigned(a), Unsigned(b)))
    case DIV => if Signed(b) == 0 then OfInt(-1) else OfInt(TruncatingDiv(Signed(a), Signed(b)))
    case DIVU => if Unsigned(b) == 0 then OfInt(-1) else OfInt(Unsigned(a) / Unsigned(b))
    case REM => if Signed(b) == 0 then a else OfInt(TruncatingRem(Signed(a), Signed(b)))
    case REMU => if Unsigned(b) == 0 then a else OfInt(Unsigned(a) % Unsigned(b))
  }

  function Multiply32(op: MulOp, a: bv64, b: bv64): bv64 {
    SignExtend32(MultiplyLow(op, Low32(a), Low32(b)))
  }

  function MultiplyLow(op: MulOp, a: bv64, b: bv64): bv64 {
    var sa, sb := SignExtend32(a), SignExtend32(b);
    match op
    case MUL => Product(a, b)
    case MULH => ShiftedRight(Product(sa, sb), 32)
    case MULHSU => ShiftedRight(Product(sa, b), 32)
    case MULHU => ShiftedRight(Product(a, b), 32)
    case DIV => if Signed(sb) == 0 then OfInt(-1) else OfInt(TruncatingDiv(Signed(sa), Signed(sb)))
    case DIVU => if Unsigned(b) == 0 then OfInt(-1) else OfInt(Unsigned(a) / Unsigned(b))
    case REM => if Signed(sb) == 0 then a else OfInt(TruncatingRem(Signed(sa), Signed(sb)))
    case REMU => if Unsigned(b) == 0 then a else OfInt(Unsigned(a) % Unsigned(b))
  }

  function Operate(component: Component, wOperation: bool, modified: bool, a: bv64, b: bv64): bv64 {
    match component
    case BasicAlu(op) => if wOperation then Operate32(op, modified, a, b) else Operate64(op, modified, a, b)
    case Multiplier(op) => if wOperation then Multiply32(op, a, b) else Multiply64(op, a, b)
    case Pass => a
  }
}
