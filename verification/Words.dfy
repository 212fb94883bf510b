/** 64-bit register words and the XLEN view of them. */
module Words {
  /** A 64-bit value: a register, an address, a CSR. */
  datatype Word = Word(bits: bv64)

  const ZERO := Word(0)

  datatype Xlen = Xlen32 | Xlen64

  const TWO_64 := 0x1_0000_0000_0000_0000

  function Add(a: bv64, b: bv64): bv64 {
    a + b
  }

  function Difference(a: bv64, b: bv64): bv64 {
    a - b
  }

  function Product(a: bv64, b: bv64): bv64 {
    a * b
  }

  predicate Less(a: bv64, b: bv64) {
    a < b
  }

  function ShiftedLeft(v: bv64, amount: bv6): bv64 {
    v << amount
  }

  function ShiftedRight(v: bv64, amount: bv6): bv64 {
    v >> amount
  }

  function NotBits(a: bv64): bv64 {
    !a
  }

  function AndBits(a: bv64, b: bv64): bv64 {
    a & b
  }

  function OrBits(a: bv64, b: bv64): bv64 {
    a | b
  }

  function XorBits(a: bv64, b: bv64): bv64 {
    a ^ b
  }

  /** The bits of `b` that are not in `a`. */
  function ClearBits(a: bv64, b: bv64): bv64 {
    !a & b
  }

  /** Whether the most significant bit is set. */
  predicate Top(v: bv64) {
    v >> 63 == 1
  }

  function Plus(a: Word, b: Word): Word {
    Word(Add(a.bits, b.bits))
  }

  function Offset(a: Word, k: bv64): Word {
    Word(Add(a.bits, k))
  }

  function Low32(v: bv64): bv64 {
    v & 0xffff_ffff
  }

  function TruncateBits(xlen: Xlen, v: bv64): bv64 {
    match xlen
    case Xlen32 => Low32(v)
    case Xlen64 => v
  }

  /** The XLEN low bits of a value: what a core of that width can observe of it. */
  function Truncate(xlen: Xlen, v: Word): Word {
    Word(TruncateBits(xlen, v.bits))
  }

  function SignExtend8(v: bv64): bv64 {
    ((v & 0xff) ^ 0x80) - 0x80
  }

  function SignExtend16(v: bv64): bv64 {
    ((v & 0xffff) ^ 0x8000) - 0x8000
  }

  function Flipped(v: bv64): bv64 {
    (v & 0xffff_ffff) ^ 0x8000_0000
  }

  function Unbiased(v: bv64): bv64 {
    v - 0x8000_0000
  }

  function SignExtend32(v: bv64): bv64 {
    Unbiased(Flipped(v))
  }

  function Unsigned(v: bv64): nat {
    v as nat
  }

  function Signed(v: bv64): int {
    var n := v as int;
    if n < 0x8000_0000_0000_0000 then n else n - TWO_64
  }

  function OfInt(x: int): bv64 {
    (x % TWO_64) as bv64
  }

  function ArithmeticShiftRight(v: bv64, amount: bv6): bv64 {
    if Top(v) then NotBits(ShiftedRight(NotBits(v), amount)) else ShiftedRight(v, amount)
  }

  /** C's division and remainder, which truncate toward zero. */
  function TruncatingDiv(a: int, b: int): int
    requires b != 0
  {
    if (a < 0) == (b < 0) then Magnitude(a) / Magnitude(b) else -(Magnitude(a) / Magnitude(b))
  }

  function TruncatingRem(a: int, b: int): int
    requires b != 0
  {
    if a < 0 then -(Magnitude(a) % Magnitude(b)) else a % Magnitude(b)
  }

  function Magnitude(x: int): nat {
    if x < 0 then -x else x
  }
}
