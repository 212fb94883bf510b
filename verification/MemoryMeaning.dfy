/** What loads, stores and atomics do to registers and memory, against little-endian numbers of bytes. */
module MemoryMeaning {
  import opened Words
  import opened Numbers
  import opened SignedNumbers
  import opened Alu
  import opened AluMeaning
  import opened MachineDefs
  import opened CsrFunctions
  import opened InstructionSet
  import opened Stages
  import opened Refinement
  import opened InstructionMeaning

  // ---------------------------------------------------------------- cells

  function ByteNumber(b: bv8): nat {
    b as nat
  }

  /** The number in the `n` bytes from address `a` on, the least significant byte first. */
  function Cell(m: Memory, a: bv64, n: nat): nat
    decreases n
  {
    if n == 0 then 0 else ByteNumber(m(a)) + 0x100 * Cell(m, Add(a, 1), n - 1)
  }

  lemma Read8Is(m: Memory, a: bv64)
    ensures Unsigned(Read8(m, a)) == ByteNumber(m(a)) < 0x100
  {
  }

  lemma {:induction false} BitwiseJoins(x: nat, y: nat, k: nat)
    requires x < Pow2(k)
    ensures Bitwise(Disjunction, x, y * Pow2(k)) == x + y * Pow2(k)
    decreases k
  {
    if k == 0 {
      BitwiseOfZero(y);
    } else if x + y * Pow2(k) > 0 {
      var p := Pow2(k - 1);
      assert y * Pow2(k) == 2 * (y * p);
      BitwiseJoins(x / 2, y, k - 1);
    }
  }

  lemma {:induction false} BitwiseOfZero(y: nat)
    ensures Bitwise(Disjunction, 0, y) == y
  {
    if y > 0 {
      BitwiseOfZero(y / 2);
    }
  }

  /** Words that share no bits, put side by side. */
  lemma JoinIs(x: bv64, y: bv64, k: bv6)
    requires Unsigned(x) < Pow2(k as nat) && Unsigned(y) * Pow2(k as nat) < TWO_64
    ensures Unsigned(OrBits(x, ShiftedLeft(y, k))) == Unsigned(x) + Unsigned(y) * Pow2(k as nat)
  {
    hide Unsigned, OrBits, ShiftedLeft, Bitwise, Pow2;
    LogicIs(Disjunction, x, ShiftedLeft(y, k));
    ShiftLeftIs(y, k);
    BitwiseJoins(Unsigned(x), Unsigned(y), k as nat);
  }

  lemma AddsUp(a: bv64, i: bv64, j: bv64, k: bv64)
    requires Unsigned(i) + Unsigned(j) == Unsigned(k)
    ensures Add(Add(a, i), j) == Add(a, k)
  {
    hide Unsigned, Add;
    SumIs(a, i);
    SumIs(Add(a, i), j);
    SumIs(a, k);
    WrappedSum(Unsigned(a) + Unsigned(i), Unsigned(j));
    SameNumber(Add(Add(a, i), j), Add(a, k));
  }

  lemma Constants()
    ensures Unsigned(1) == 1 && Unsigned(2) == 2 && Unsigned(3) == 3 && Unsigned(4) == 4
    ensures Unsigned(5) == 5 && Unsigned(6) == 6 && Unsigned(7) == 7 && Unsigned(8) == 8
  {
  }

  lemma Steps(a: bv64)
    ensures Add(Add(a, 1), 1) == Add(a, 2) && Add(Add(a, 2), 1) == Add(a, 3) && Add(Add(a, 3), 1) == Add(a, 4)
    ensures Add(Add(a, 4), 1) == Add(a, 5) && Add(Add(a, 5), 1) == Add(a, 6) && Add(Add(a, 6), 1) == Add(a, 7)
  {
    hide Unsigned, Add;
    Constants();
    AddsUp(a, 1, 1, 2);
    AddsUp(a, 2, 1, 3);
    AddsUp(a, 3, 1, 4);
    AddsUp(a, 4, 1, 5);
    AddsUp(a, 5, 1, 6);
    AddsUp(a, 6, 1, 7);
  }

  lemma CellOne(m: Memory, a: bv64)
    ensures Cell(m, a, 1) == ByteNumber(m(a))
  {
    assert Cell(m, Add(a, 1), 0) == 0;
  }

  lemma CellTwo(m: Memory, a: bv64)
    ensures Cell(m, a, 2) == ByteNumber(m(a)) + 0x100 * ByteNumber(m(Add(a, 1)))
  {
    hide Add;
    CellOne(m, Add(a, 1));
  }

  lemma CellFour(m: Memory, a: bv64)
    ensures Cell(m, a, 4) == Cell(m, a, 2) + 0x1_0000 * Cell(m, Add(a, 2), 2)
  {
    hide Add;
    CellTwo(m, a);
    Steps(a);
    assert Cell(m, Add(a, 1), 3) == ByteNumber(m(Add(a, 1))) + 0x100 * Cell(m, Add(Add(a, 1), 1), 2);
  }

  lemma CellMore(m: Memory, a: bv64, n: nat)
    requires n > 0
    ensures Cell(m, a, n) == ByteNumber(m(a)) + 0x100 * Cell(m, Add(a, 1), n - 1)
  {
  }

  lemma CellEight(m: Memory, a: bv64)
    ensures Cell(m, a, 8) == Cell(m, a, 4) + 0x1_0000_0000 * Cell(m, Add(a, 4), 4)
  {
    hide Add, Cell, ByteNumber;
    CellFour(m, a);
    CellTwo(m, a);
    CellTwo(m, Add(a, 2));
    Steps(a);
    CellMore(m, a, 8);
    CellMore(m, Add(a, 1), 7);
    CellMore(m, Add(a, 2), 6);
    CellMore(m, Add(a, 3), 5);
  }

  lemma Read16Is(m: Memory, a: bv64)
    ensures Unsigned(Read16(m, a)) == Cell(m, a, 2) < 0x1_0000
  {
    hide Unsigned, OrBits, ShiftedLeft, Read8, Add, Cell, Pow2;
    Pow2Bytes();
    Read8Is(m, a);
    Read8Is(m, Add(a, 1));
    JoinIs(Read8(m, a), Read8(m, Add(a, 1)), 8);
    CellTwo(m, a);
  }

  lemma Read32Is(m: Memory, a: bv64)
    ensures Unsigned(Read32(m, a)) == Cell(m, a, 4) < 0x1_0000_0000
  {
    hide Unsigned, OrBits, ShiftedLeft, Read16, Add, Cell, Pow2;
    Pow2Bytes();
    Read16Is(m, a);
    Read16Is(m, Add(a, 2));
    JoinIs(Read16(m, a), Read16(m, Add(a, 2)), 16);
    CellFour(m, a);
  }

  lemma Read64Is(m: Memory, a: bv64)
    ensures Unsigned(Read64(m, a)) == Cell(m, a, 8)
  {
    hide Unsigned, OrBits, ShiftedLeft, Read32, Add, Cell, Pow2;
    Pow2Bytes();
    Read32Is(m, a);
    Read32Is(m, Add(a, 4));
    JoinIs(Read32(m, a), Read32(m, Add(a, 4)), 32);
    CellEight(m, a);
  }

  // ---------------------------------------------------------------- stored bytes

  /** The `n` low bytes of the number `x` lie at `a`. */
  predicate Lies(m: Memory, a: bv64, x: nat, n: nat)
    decreases n
  {
    n == 0 || (ByteNumber(m(a)) == x % 0x100 && Lies(m, Add(a, 1), x / 0x100, n - 1))
  }

  lemma {:induction false} CellOfLying(m: Memory, a: bv64, x: nat, n: nat)
    requires Lies(m, a, x, n)
    ensures Cell(m, a, n) == x % Pow2(8 * n)
    decreases n
  {
    if n > 0 {
      hide Add;
      CellOfLying(m, Add(a, 1), x / 0x100, n - 1);
      Pow2Adds(8, 8 * (n - 1));
      Pow2Bytes();
      LowDigit(x, Pow2(8 * (n - 1)));
    }
  }

  lemma LowDigit(x: nat, p: nat)
    requires p > 0
    ensures x % (0x100 * p) == x % 0x100 + 0x100 * (x / 0x100 % p)
  {
    var y := x / 0x100;
    var q, r := y / p, y % p;
    assert x == 0x100 * y + x % 0x100 && y == p * q + r;
    assert 0x100 * (p * q) == (0x100 * p) * q;
    QuotientIs(x, 0x100 * p, q, 0x100 * r + x % 0x100);
  }

  lemma OffsetBack(a: bv64, i: bv64)
    ensures Difference(Add(a, i), a) == i
  {
    hide Unsigned, Add, Difference;
    SumIs(a, i);
    DifferenceIs(Add(a, i), a);
    Bounded(a);
    Bounded(i);
    SameNumber(Difference(Add(a, i), a), i);
  }

  lemma StoredByte(m: Memory, a: bv64, size: bv64, v: bv64, i: bv64)
    requires size <= 8 && Less(i, size)
    ensures WriteBytes(m, a, size, v)(Add(a, i)) == ByteAt(v, i)
  {
    PlacedByte(a, size, v, i);
    hide Within, ByteOf, Add;
  }

  lemma PlacedByte(a: bv64, size: bv64, v: bv64, i: bv64)
    requires Less(i, size)
    ensures Within(Add(a, i), a, size) && ByteOf(v, Add(a, i), a) == ByteAt(v, i)
  {
    hide Add, Difference, Less, ByteAt;
    OffsetBack(a, i);
  }

  lemma FirstBytes(v: bv64)
    ensures ByteAt(v, 0) as bv64 == Low8(v) && ByteAt(v, 1) as bv64 == Low8(v >> 8)
    ensures ByteAt(v, 2) as bv64 == Low8(v >> 16) && ByteAt(v, 3) as bv64 == Low8(v >> 24)
  {
  }

  lemma LastBytes(v: bv64)
    ensures ByteAt(v, 4) as bv64 == Low8(v >> 32) && ByteAt(v, 5) as bv64 == Low8(v >> 40)
    ensures ByteAt(v, 6) as bv64 == Low8(v >> 48) && ByteAt(v, 7) as bv64 == Low8(v >> 56)
  {
  }

  lemma ByteShifts(v: bv64)
    ensures ShiftedRight(v, 8) == v >> 8 && ShiftedRight(v, 16) == v >> 16 && ShiftedRight(v, 24) == v >> 24
    ensures ShiftedRight(v, 32) == v >> 32 && ShiftedRight(v, 40) == v >> 40
    ensures ShiftedRight(v, 48) == v >> 48 && ShiftedRight(v, 56) == v >> 56
  {
  }

  lemma ByteWord(b: bv8)
    ensures Unsigned(b as bv64) == ByteNumber(b)
  {
  }

  /** The digits of a word to the base 256. */
  lemma ByteAtIs(v: bv64, i: bv64, k: bv6)
    requires ByteAt(v, i) as bv64 == Low8(ShiftedRight(v, k))
    ensures ByteNumber(ByteAt(v, i)) == Unsigned(v) / Pow2(k as nat) % 0x100
  {
    hide Unsigned, ByteAt, Low8, ShiftedRight, ByteNumber;
    ByteWord(ByteAt(v, i));
    LowIs(ShiftedRight(v, k));
    ShiftRightIs(v, k);
  }

  lemma Pow2Digits()
    ensures Pow2(0) == 1 && Pow2(24) == 0x100_0000 && Pow2(40) == 0x100_0000_0000
    ensures Pow2(48) == 0x1_0000_0000_0000 && Pow2(56) == 0x100_0000_0000_0000
  {
    hide Pow2;
    Pow2Bytes();
    Pow2Adds(8, 16);
    Pow2Adds(8, 32);
    Pow2Adds(16, 32);
    Pow2Adds(24, 32);
    Pow2Zero();
  }

  lemma Pow2Zero()
    ensures Pow2(0) == 1
  {
  }

  lemma NoShift(v: bv64)
    ensures ShiftedRight(v, 0) == v && Add(v, 0) == v
  {
  }

  lemma FirstDigits(v: bv64)
    ensures ByteNumber(ByteAt(v, 0)) == Unsigned(v) % 0x100
    ensures ByteNumber(ByteAt(v, 1)) == Unsigned(v) / 0x100 % 0x100
    ensures ByteNumber(ByteAt(v, 2)) == Unsigned(v) / 0x1_0000 % 0x100
    ensures ByteNumber(ByteAt(v, 3)) == Unsigned(v) / 0x100_0000 % 0x100
  {
    hide Unsigned, ByteAt, Low8, ShiftedRight, ByteNumber, Pow2;
    FirstBytes(v);
    ByteShifts(v);
    NoShift(v);
    Pow2Bytes();
    Pow2Digits();
    ByteAtIs(v, 0, 0);
    ByteAtIs(v, 1, 8);
    ByteAtIs(v, 2, 16);
    ByteAtIs(v, 3, 24);
  }

  lemma LastDigits(v: bv64)
    ensures ByteNumber(ByteAt(v, 4)) == Unsigned(v) / 0x1_0000_0000 % 0x100
    ensures ByteNumber(ByteAt(v, 5)) == Unsigned(v) / 0x100_0000_0000 % 0x100
    ensures ByteNumber(ByteAt(v, 6)) == Unsigned(v) / 0x1_0000_0000_0000 % 0x100
    ensures ByteNumber(ByteAt(v, 7)) == Unsigned(v) / 0x100_0000_0000_0000 % 0x100
  {
    hide Unsigned, ByteAt, Low8, ShiftedRight, ByteNumber, Pow2;
    LastBytes(v);
    ByteShifts(v);
    Pow2Bytes();
    Pow2Digits();
    ByteAtIs(v, 4, 32);
    ByteAtIs(v, 5, 40);
    ByteAtIs(v, 6, 48);
    ByteAtIs(v, 7, 56);
  }

  /** The number in place of which the store of `size` bytes of `n` puts a cell, all other bytes staying. */
  ghost predicate Stores(m: Memory, m': Memory, a: bv64, size: nat, n: int) {
    && Cell(m', a, size) == n % Pow2(8 * size)
    && forall x: bv64 :: (Unsigned(x) - Unsigned(a)) % TWO_64 >= size ==> m'(x) == m(x)
  }

  lemma Sizes(i: bv64, size: bv64)
    requires Unsigned(i) < Unsigned(size)
    ensures Less(i, size)
  {
    hide Unsigned, Less;
    LessIs(i, size);
  }

  lemma LyingNone(m: Memory, a: bv64, x: nat)
    ensures Lies(m, a, x, 0)
  {
  }

  lemma LyingMore(m: Memory, a: bv64, i: bv64, j: bv64, x: nat, n: nat)
    requires Add(Add(a, i), 1) == Add(a, j)
    requires ByteNumber(m(Add(a, i))) == x % 0x100 && Lies(m, Add(a, j), x / 0x100, n)
    ensures Lies(m, Add(a, i), x, n + 1)
  {
    hide Add, ByteNumber;
  }

  /** Bytes written in order: the lower four, on top of what lies above them. */
  lemma LyingFour(m: Memory, a: bv64, x: nat, n: nat)
    requires ByteNumber(m(Add(a, 0))) == x % 0x100 && ByteNumber(m(Add(a, 1))) == x / 0x100 % 0x100
    requires ByteNumber(m(Add(a, 2))) == x / 0x1_0000 % 0x100 && ByteNumber(m(Add(a, 3))) == x / 0x100_0000 % 0x100
    requires Lies(m, Add(a, 4), x / 0x1_0000_0000, n)
    ensures Lies(m, Add(a, 0), x, n + 4)
  {
    hide Add, ByteNumber, Lies;
    Steps(a);
    StepsFirst(a);
    LyingMore(m, a, 3, 4, x / 0x100_0000, n);
    LyingMore(m, a, 2, 3, x / 0x1_0000, n + 1);
    LyingMore(m, a, 1, 2, x / 0x100, n + 2);
    LyingMore(m, a, 0, 1, x, n + 3);
  }

  lemma StepsFirst(a: bv64)
    ensures Add(Add(a, 0), 1) == Add(a, 1)
  {
    hide Add, ShiftedRight;
    NoShift(a);
  }

  lemma Placed(m: Memory, a: bv64, size: bv64, v: bv64, i: bv64)
    requires size <= 8 && Unsigned(i) < Unsigned(size)
    ensures ByteNumber(WriteBytes(m, a, size, v)(Add(a, i))) == ByteNumber(ByteAt(v, i))
  {
    hide Unsigned, Add, WriteBytes, ByteAt, ByteNumber;
    Sizes(i, size);
    StoredByte(m, a, size, v, i);
  }

  lemma Zero()
    ensures Unsigned(0) == 0
  {
  }

  lemma StoredFour(m: Memory, a: bv64, size: bv64, v: bv64)
    requires size == 4 || size == 8
    ensures
      var m', x := WriteBytes(m, a, size, v), Unsigned(v);
      && ByteNumber(m'(Add(a, 0))) == x % 0x100 && ByteNumber(m'(Add(a, 1))) == x / 0x100 % 0x100
      && ByteNumber(m'(Add(a, 2))) == x / 0x1_0000 % 0x100 && ByteNumber(m'(Add(a, 3))) == x / 0x100_0000 % 0x100
  {
    hide Unsigned, Add, WriteBytes, ByteAt, ByteNumber;
    Constants();
    Zero();
    FirstDigits(v);
    Placed(m, a, size, v, 0);
    Placed(m, a, size, v, 1);
    Placed(m, a, size, v, 2);
    Placed(m, a, size, v, 3);
  }

  lemma StoredLast(m: Memory, a: bv64, v: bv64)
    ensures Lies(WriteBytes(m, a, 8, v), Add(a, 4), Unsigned(v) / 0x1_0000_0000, 4)
  {
    hide Unsigned, Add, WriteBytes, ByteAt, ByteNumber, Lies;
    var m', x := WriteBytes(m, a, 8, v), Unsigned(v);
    Constants();
    LastDigits(v);
    Placed(m, a, 8, v, 4);
    Placed(m, a, 8, v, 5);
    Placed(m, a, 8, v, 6);
    Placed(m, a, 8, v, 7);
    Steps(a);
    StepsLast(a);
    LyingNone(m', Add(a, 8), x / 0x100_0000_0000_0000 / 0x100);
    LyingMore(m', a, 7, 8, x / 0x100_0000_0000_0000, 0);
    LyingMore(m', a, 6, 7, x / 0x1_0000_0000_0000, 1);
    LyingMore(m', a, 5, 6, x / 0x100_0000_0000, 2);
    LyingMore(m', a, 4, 5, x / 0x1_0000_0000, 3);
  }

  lemma StepsLast(a: bv64)
    ensures Add(Add(a, 7), 1) == Add(a, 8)
  {
    hide Unsigned, Add;
    Constants();
    AddsUp(a, 7, 1, 8);
  }

  lemma StoredCell(m: Memory, a: bv64, size: bv64, v: bv64)
    requires size == 1 || size == 2 || size == 4 || size == 8
    ensures Cell(WriteBytes(m, a, size, v), a, Unsigned(size)) == Unsigned(v) % Pow2(8 * Unsigned(size))
  {
    hide Unsigned, Add, WriteBytes, ByteAt, ByteNumber, Lies, Cell, Pow2;
    var m', x := WriteBytes(m, a, size, v), Unsigned(v);
    Constants();
    Zero();
    NoShift(a);
    StepsFirst(a);
    Steps(a);
    if size == 1 || size == 2 {
      FirstDigits(v);
      Placed(m, a, size, v, 0);
      if size == 1 {
        LyingNone(m', Add(a, 1), x / 0x100);
      } else {
        Placed(m, a, size, v, 1);
        LyingNone(m', Add(a, 2), x / 0x100 / 0x100);
        LyingMore(m', a, 1, 2, x / 0x100, 0);
      }
      LyingMore(m', a, 0, 1, x, Unsigned(size) - 1);
    } else {
      StoredFour(m, a, size, v);
      if size == 4 {
        LyingNone(m', Add(a, 4), x / 0x1_0000_0000);
      } else {
        StoredLast(m, a, v);
      }
      LyingFour(m', a, x, Unsigned(size) - 4);
    }
    CellOfLying(m', a, x, Unsigned(size));
  }

  lemma Outside(m: Memory, a: bv64, size: bv64, v: bv64, y: bv64)
    requires size <= 8 && (Unsigned(y) - Unsigned(a)) % TWO_64 >= Unsigned(size)
    ensures WriteBytes(m, a, size, v)(y) == m(y)
  {
    assert !Within(y, a, size) by {
      hide Unsigned, Less, Difference;
      DifferenceIs(y, a);
      LessIs(Difference(y, a), size);
    }
    hide Within, ByteOf;
  }

  /** A store leaves the low bytes of the value, in order, and nothing else changed. */
  lemma StoreIs(m: Memory, a: bv64, size: bv64, v: bv64)
    requires size == 1 || size == 2 || size == 4 || size == 8
    ensures Stores(m, WriteBytes(m, a, size, v), a, Unsigned(size), Unsigned(v))
  {
    hide Unsigned, WriteBytes, Cell, Pow2;
    StoredCell(m, a, size, v);
    forall y: bv64 | (Unsigned(y) - Unsigned(a)) % TWO_64 >= Unsigned(size)
      ensures WriteBytes(m, a, size, v)(y) == m(y)
    {
      Outside(m, a, size, v, y);
    }
  }

  // ---------------------------------------------------------------- the access stage

  predicate IsAccess(op: Opcode) {
    op.Load? || op.Store? || op.Lr? || op.Amo?
  }

  lemma AccessSignals(env: Env, inst: Instruction)
    requires IsAccess(inst.opcode)
    ensures
      var g, op := SignalsOf(env, inst), inst.opcode;
      && g.memctl == AccessOf(op) && g.regwrite == !op.Store? && !g.csr && !g.csrWrite && !g.xret && !g.aluPc
      && !g.branchBxx && !g.branchJal && !g.branchJalr && !g.csrToAlu
      && g.memread == !op.Store? && g.memwrite == (op.Store? || op.Amo?) && g.amo == (op.Lr? || op.Amo?)
      && (op.Load? || op.Store? ==> g.component == BasicAlu(ADD) && g.wOperation == (env.xlen != Xlen64) && !g.aluMod
                                    && g.alusrc)
      && (op.Lr? || op.Amo? ==> g.component == Pass)
    ensures NumRs(inst) == inst.rs && (!inst.opcode.Store? ==> NumRd(inst) == inst.rd)
    ensures inst.opcode.Store? || inst.opcode.Amo? ==> NumRt(inst) == inst.rt
    ensures !Has(FlagsOf(inst.opcode), IMF_ALU_RS_ID)
  {
  }

  /** The address an access goes to. */
  function Address(env: Env, s: ArchState, inst: Instruction): Word {
    var base := ReadGp(s.regs, inst.rs);
    Truncate(env.xlen, if inst.opcode.Load? || inst.opcode.Store? then Plus(base, inst.immediate) else base)
  }

  lemma HoldsModulo(xlen: Xlen, r: bv64, x: int)
    requires Unsigned(r) == x % TWO_64
    ensures Holds(xlen, Truncate(xlen, Word(r)), x)
  {
    hide Unsigned, Signed, Pow2, TruncateBits;
    CutIs(xlen, r);
    SignedModulo(r);
    Pow2Bytes();
    Modulo32(Signed(r));
    Modulo32(x);
  }

  /** Loads and stores go to the sum of a register and a distance, atomics to a register. */
  lemma AddressIs(env: Env, s: ArchState, inst: Instruction)
    requires IsAccess(inst.opcode)
    ensures
      var base := Unsigned(ReadGp(s.regs, inst.rs).bits);
      Holds(env.xlen, Address(env, s, inst),
            if inst.opcode.Load? || inst.opcode.Store? then base + Unsigned(inst.immediate.bits) else base)
  {
    hide Unsigned, Add, Truncate, ReadGp, Holds;
    var base := ReadGp(s.regs, inst.rs);
    SumIs(base.bits, inst.immediate.bits);
    Bounded(base.bits);
    if inst.opcode.Load? || inst.opcode.Store? {
      HoldsModulo(env.xlen, Add(base.bits, inst.immediate.bits), Unsigned(base.bits) + Unsigned(inst.immediate.bits));
    } else {
      HoldsModulo(env.xlen, base.bits, Unsigned(base.bits));
    }
  }

  lemma PassIs(xlen: Xlen, w: bool, modified: bool, a: bv64, b: bv64)
    ensures TruncateBits(xlen, Operate(Pass, w, modified, a, b)) == TruncateBits(xlen, a)
  {
    hide Operate32, Operate64, Multiply32, Multiply64, TruncateBits;
  }

  lemma AccessExecutes(env: Env, s: ArchState, inst: Instruction)
    requires Runs(env, s, inst) && IsAccess(inst.opcode)
    ensures SingleExecute(env, s, ZERO).aluVal == Address(env, s, inst)
    ensures inst.opcode.Store? || inst.opcode.Amo? ==> SingleExecute(env, s, ZERO).valRt == ReadGp(s.regs, inst.rt)
  {
    hide SingleExecute, SignalsOf, Runs, Operate, TruncateBits, ReadGp, NumRs, NumRt, NumRd, FlagsOf, Has, CsrReadValue,
      Add;
    RunsExecute(env, s, inst);
    AccessSignals(env, inst);
    var base := ReadGp(s.regs, inst.rs).bits;
    if inst.opcode.Load? || inst.opcode.Store? {
      AluAdds(env.xlen, base, inst.immediate.bits);
    } else {
      var g := SignalsOf(env, inst);
      var snd := if g.alusrc then inst.immediate else ReadGp(s.regs, NumRt(inst));
      PassIs(env.xlen, g.wOperation, g.aluMod, base, snd.bits);
    }
  }

  /** A step whose access does not fault. */
  lemma AccessStep(env: Env, s: ArchState, inst: Instruction, predicted: Word)
    requires Runs(env, s, inst) && IsAccess(inst.opcode)
    requires !DataAccess(env, s.memory, s.control, SingleExecute(env, s, ZERO)).fault
    ensures
      var access := DataAccess(env, s.memory, s.control, SingleExecute(env, s, ZERO));
      var s' := SingleStep(env, s, predicted);
      && s'.memory == access.memory && Reaches(s'.pc, Unsigned(s.pc.bits) + 4)
      && s'.regs == (if inst.opcode.Store? then s.regs else WriteGp(s.regs, inst.rd, Truncate(env.xlen, access.value)))
      && s'.control == Counted(env, s.control).(reserved := access.reserved)
  {
    hide SingleExecute, SignalsOf, Runs, DataAccess, WriteInternal, Write, WriteGp, Truncate, Offset, Unsigned, NumRs,
      NumRt, NumRd, FlagsOf, Has, Reaches;
    PredictionIrrelevant(env, s, predicted, ZERO);
    RunsExecute(env, s, inst);
    AccessSignals(env, inst);
    ReachesNext(s.pc);
  }

  // ---------------------------------------------------------------- loads and stores

  function LoadSize(kind: LoadKind): nat {
    match kind
    case LB => 1
    case LBU => 1
    case LH => 2
    case LHU => 2
    case LW => 4
    case LWU => 4
    case LD => 8
  }

  function StoreSize(kind: StoreKind): nat {
    match kind
    case SB => 1
    case SH => 2
    case SW => 4
    case SD => 8
  }

  /** The number a load finds: lb, lh, lw and ld a signed one, lbu, lhu and lwu an unsigned one. */
  function LoadNumber(m: Memory, kind: LoadKind, a: bv64): int {
    var size := LoadSize(kind);
    var n := Cell(m, a, size);
    if kind == LBU || kind == LHU || kind == LWU then n else SignedOf(8 * size, n)
  }

  lemma ReadExtended(m: Memory, kind: LoadKind, a: bv64)
    requires kind == LB || kind == LH || kind == LW || kind == LD
    ensures Signed(ReadCtl(m, AccessOf(Load(kind)), a)) == LoadNumber(m, kind, a)
  {
    hide Unsigned, Signed, Read8, Read16, Read32, Read64, SignExtend8, SignExtend16, SignExtend32, Cell, SignedOf, Pow2,
      ByteNumber;
    match kind
    case LB =>
      CellOne(m, a);
      Read8Is(m, a);
      SignExtendIs(Read8(m, a));
    case LH =>
      Read16Is(m, a);
      SignExtendIs(Read16(m, a));
    case LW =>
      Read32Is(m, a);
      SignExtendIs(Read32(m, a));
    case LD =>
      Read64Is(m, a);
      SignedIs(Read64(m, a));
  }

  lemma ReadIs(m: Memory, kind: LoadKind, a: bv64)
    ensures Unsigned(ReadCtl(m, AccessOf(Load(kind)), a)) == LoadNumber(m, kind, a) % TWO_64
  {
    hide Unsigned, Signed, Read8, Read16, Read32, Read64, SignExtend8, SignExtend16, SignExtend32, Cell, SignedOf, Pow2,
      ByteNumber;
    match kind
    case LBU =>
      CellOne(m, a);
      Read8Is(m, a);
    case LHU => Read16Is(m, a);
    case LWU => Read32Is(m, a);
    case _ =>
      hide LoadNumber, ReadCtl;
      ReadExtended(m, kind, a);
      SignedModulo(ReadCtl(m, AccessOf(Load(kind)), a));
  }

  lemma LoadAccess(env: Env, m: Memory, c: Control, e: ExecuteInterstage)
    requires e.inst.opcode.Load? && e.signals == SignalsOf(env, e.inst) && e.excause == NoException
    requires !env.dataFault(e.aluVal, ReadOp, c.privilege, c.csrs)
    ensures DataAccess(env, m, c, e)
            == Access(m, c.reserved, Word(ReadCtl(m, AccessOf(e.inst.opcode), e.aluVal.bits)), false)
  {
    hide SignalsOf, ReadCtl, WriteCtl, NumRs, NumRt, NumRd, FlagsOf, Has;
    AccessSignals(env, e.inst);
  }

  /** A load leaves in its destination the number it finds and changes nothing else. */
  lemma LoadMeaning(env: Env, s: ArchState, inst: Instruction, predicted: Word) returns (v: Word)
    requires Runs(env, s, inst) && inst.opcode.Load?
    requires !env.dataFault(Address(env, s, inst), ReadOp, s.control.privilege, s.control.csrs)
    ensures Assigns(env, s, SingleStep(env, s, predicted), inst.rd, v, Unsigned(s.pc.bits) + 4)
    ensures Holds(env.xlen, v, LoadNumber(s.memory, inst.opcode.load, Address(env, s, inst).bits))
  {
    hide SingleExecute, SignalsOf, Runs, DataAccess, SingleStep, WriteInternal, WriteGp, Truncate, Unsigned, Reaches,
      ReadCtl, Address, Holds, LoadNumber;
    RunsExecute(env, s, inst);
    AccessExecutes(env, s, inst);
    LoadAccess(env, s.memory, s.control, SingleExecute(env, s, ZERO));
    AccessStep(env, s, inst, predicted);
    var a := Address(env, s, inst).bits;
    v := Truncate(env.xlen, Word(ReadCtl(s.memory, AccessOf(inst.opcode), a)));
    ReadIs(s.memory, inst.opcode.load, a);
    HoldsModulo(env.xlen, ReadCtl(s.memory, AccessOf(inst.opcode), a), LoadNumber(s.memory, inst.opcode.load, a));
  }

  lemma WriteIs(m: Memory, kind: StoreKind, a: bv64, v: bv64)
    ensures Stores(m, WriteCtl(m, AccessOf(Store(kind)), a, v), a, StoreSize(kind), Unsigned(v))
  {
    hide Stores, Unsigned, WriteBytes;
    Constants();
    match kind
    case SB => StoreIs(m, a, 1, v);
    case SH => StoreIs(m, a, 2, v);
    case SW => StoreIs(m, a, 4, v);
    case SD => StoreIs(m, a, 8, v);
  }

  lemma SignedOfRemainder(w: nat, n: int)
    ensures SignedOf(w, n % Pow2(w)) == SignedOf(w, n)
  {
    hide Pow2;
  }

  lemma SmallerRemainder(n: nat, p: nat)
    requires p > 0
    ensures n % p <= n
  {
    SmallerQuotient(n, p);
    assert p * (n / p) >= 0;
  }

  /** A load finds the low bytes of what a store of its size left there, as an unsigned or a signed number. */
  lemma StoreThenLoad(m: Memory, store: StoreKind, load: LoadKind, a: bv64, v: bv64)
    requires StoreSize(store) == LoadSize(load)
    ensures
      var found := ReadCtl(WriteCtl(m, AccessOf(Store(store)), a, v), AccessOf(Load(load)), a);
      var bits := 8 * LoadSize(load);
      if load == LBU || load == LHU || load == LWU then Unsigned(found) == Unsigned(v) % Pow2(bits)
      else Unsigned(found) == SignedOf(bits, Unsigned(v)) % TWO_64
  {
    hide ReadCtl, WriteCtl, Unsigned, Cell, SignedOf, Pow2;
    var m' := WriteCtl(m, AccessOf(Store(store)), a, v);
    WriteIs(m, store, a, v);
    ReadIs(m', load, a);
    SignedOfRemainder(8 * LoadSize(load), Unsigned(v));
    SmallerRemainder(Unsigned(v), Pow2(8 * LoadSize(load)));
    Bounded(v);
  }

  lemma StoreAccess(env: Env, m: Memory, c: Control, e: ExecuteInterstage)
    requires e.inst.opcode.Store? && e.signals == SignalsOf(env, e.inst) && e.excause == NoException
    requires !env.dataFault(e.aluVal, WriteOp, c.privilege, c.csrs)
    ensures
      var access := DataAccess(env, m, c, e);
      && access.memory == WriteCtl(m, AccessOf(e.inst.opcode), e.aluVal.bits, e.valRt.bits)
      && access.reserved == c.reserved && !access.fault
  {
    hide SignalsOf, ReadCtl, WriteCtl, NumRs, NumRt, NumRd, FlagsOf, Has;
    AccessSignals(env, e.inst);
  }

  /** A store leaves the low bytes of its register at the address and changes nothing else. */
  lemma StoreMeaning(env: Env, s: ArchState, inst: Instruction, predicted: Word)
    requires Runs(env, s, inst) && inst.opcode.Store?
    requires !env.dataFault(Address(env, s, inst), WriteOp, s.control.privilege, s.control.csrs)
    ensures
      var s' := SingleStep(env, s, predicted);
      && Stores(s.memory, s'.memory, Address(env, s, inst).bits, StoreSize(inst.opcode.store),
                Unsigned(ReadGp(s.regs, inst.rt).bits))
      && s'.regs == s.regs && Reaches(s'.pc, Unsigned(s.pc.bits) + 4) && s'.control == Counted(env, s.control)
  {
    hide SingleExecute, SignalsOf, Runs, DataAccess, SingleStep, WriteInternal, WriteGp, Truncate, Unsigned, Reaches,
      WriteCtl, Address, Stores, ReadGp;
    RunsExecute(env, s, inst);
    AccessExecutes(env, s, inst);
    StoreAccess(env, s.memory, s.control, SingleExecute(env, s, ZERO));
    AccessStep(env, s, inst, predicted);
    WriteIs(s.memory, inst.opcode.store, Address(env, s, inst).bits, ReadGp(s.regs, inst.rt).bits);
  }

  // ---------------------------------------------------------------- atomics

  function AtomicSize(wide: bool): nat {
    if wide then 8 else 4
  }

  /** What an atomic operation leaves in memory, from what it found and its operand, both of `w` bits. */
  function AtomicResult(op: AmoOp, w: nat, held: nat, operand: nat): nat {
    match op
    case AmoSwap => operand
    case AmoAdd => held + operand
    case AmoXor => Bitwise(Exclusion, held, operand)
    case AmoAnd => Bitwise(Conjunction, held, operand)
    case AmoOr => Bitwise(Disjunction, held, operand)
    case AmoMin => if SignedOf(w, held) < SignedOf(w, operand) then held else operand
    case AmoMax => if SignedOf(w, held) < SignedOf(w, operand) then operand else held
    case AmoMinU => if held < operand then held else operand
    case AmoMaxU => if held < operand then operand else held
  }

  lemma AtomicIs64(op: AmoOp, a: bv64, b: bv64)
    ensures Unsigned(AmoOperation64(op, a, b)) == AtomicResult(op, 64, Unsigned(a), Unsigned(b)) % TWO_64
  {
    hide Unsigned, Signed, Add, XorBits, AndBits, OrBits, Less, SignedOf, Bitwise;
    Stays(AtomicResult(op, 64, Unsigned(a), Unsigned(b)));
    Bounded(AmoOperation64(op, a, b));
    SumIs(a, b);
    LogicIs(Exclusion, a, b);
    LogicIs(Conjunction, a, b);
    LogicIs(Disjunction, a, b);
    SignedIs(a);
    SignedIs(b);
    LessIs(a, b);
  }

  lemma BitwiseStep(logic: Logic, x: nat, y: nat, h: nat, i: nat, p: bool, q: bool)
    requires x == 2 * h + Digit(p) && y == 2 * i + Digit(q)
    ensures Bitwise(logic, x, y) == 2 * Bitwise(logic, h, i) + Digit(logic.OnBits(p, q))
  {
    assert x / 2 == h && y / 2 == i && (x % 2 == 1) == p && (y % 2 == 1) == q;
  }

  lemma BitwiseDigits(logic: Logic, x: nat, y: nat, r: nat, u: nat, v: nat, t: nat)
    requires t == Bitwise(logic, x, y) % 2 + 2 * r && r == Bitwise(logic, u, v)
    ensures t == Bitwise(logic, x % 2 + 2 * u, y % 2 + 2 * v)
  {
    hide Bitwise, Logic.OnBits;
    var p, q := x % 2 == 1, y % 2 == 1;
    BitwiseStep(logic, x, y, x / 2, y / 2, p, q);
    BitwiseStep(logic, x % 2 + 2 * u, y % 2 + 2 * v, u, v, p, q);
  }

  lemma BitwiseRemainder(logic: Logic, x: nat, y: nat, n: nat, m: nat)
    requires n > 0 && m == 2 * n && Bitwise(logic, x / 2, y / 2) % n == Bitwise(logic, x / 2 % n, y / 2 % n)
    ensures Bitwise(logic, x, y) % m == Bitwise(logic, x % m, y % m)
  {
    hide Bitwise, Logic.OnBits;
    var z := Bitwise(logic, x, y);
    BitwiseStep(logic, x, y, x / 2, y / 2, x % 2 == 1, y % 2 == 1);
    LowDigitTwo(x, n, m);
    LowDigitTwo(y, n, m);
    LowDigitTwo(z, n, m);
    BitwiseDigits(logic, x, y, z / 2 % n, x / 2 % n, y / 2 % n, z % m);
  }

  lemma {:induction false} BitwiseModulo(logic: Logic, x: nat, y: nat, k: nat)
    ensures Bitwise(logic, x, y) % Pow2(k) == Bitwise(logic, x % Pow2(k), y % Pow2(k))
    decreases k
  {
    if k > 0 {
      BitwiseModulo(logic, x / 2, y / 2, k - 1);
      BitwiseRemainder(logic, x, y, Pow2(k - 1), Pow2(k));
    }
  }

  lemma LogicLow(logic: Logic, a: bv64, b: bv64)
    requires Unsigned(a) < TWO_32
    ensures Unsigned(logic.OnWords(a, b)) % TWO_32 == Bitwise(logic, Unsigned(a), Unsigned(b) % TWO_32) % TWO_32
  {
    hide Unsigned, Logic.OnWords, Bitwise, Pow2;
    Pow2Bytes();
    LogicIs(logic, a, b);
    BitwiseModulo(logic, Unsigned(a), Unsigned(b), 32);
    BitwiseModulo(logic, Unsigned(a), Unsigned(b) % TWO_32, 32);
  }

  lemma LowOrder(a: bv64, b: bv64)
    requires Unsigned(a) < TWO_32
    ensures Less(Low32(a), Low32(b)) <==> Unsigned(a) < Unsigned(b) % TWO_32
    ensures Signed(SignExtend32(a)) == SignedOf(32, Unsigned(a))
    ensures Signed(SignExtend32(b)) == SignedOf(32, Unsigned(b) % TWO_32)
  {
    hide Unsigned, Signed, Less, SignedOf, Low32, SignExtend32, Pow2;
    Pow2Bytes();
    SignExtendIs(a);
    SignExtendIs(b);
    SignedSame(32, Unsigned(b), Unsigned(b) % TWO_32);
    LowIs(a);
    LowIs(b);
    LessIs(Low32(a), Low32(b));
  }

  lemma SumLow(a: bv64, b: bv64)
    ensures Unsigned(Add(a, b)) % TWO_32 == (Unsigned(a) + Unsigned(b) % TWO_32) % TWO_32
  {
    hide Unsigned, Add;
    SumIs(a, b);
    Modulo32(Unsigned(a) + Unsigned(b));
    SumModulo(Unsigned(a), Unsigned(b), TWO_32);
  }

  lemma AtomicIs32(op: AmoOp, a: bv64, b: bv64)
    requires Unsigned(a) < TWO_32
    ensures Unsigned(AmoOperation32(op, a, b)) % TWO_32
            == AtomicResult(op, 32, Unsigned(a), Unsigned(b) % TWO_32) % TWO_32
  {
    hide Unsigned, Signed, Add, XorBits, AndBits, OrBits, Less, SignedOf, Bitwise, Low32, SignExtend32;
    match op
    case AmoSwap =>
    case AmoAdd => SumLow(a, b);
    case AmoXor => LogicLow(Exclusion, a, b);
    case AmoAnd => LogicLow(Conjunction, a, b);
    case AmoOr => LogicLow(Disjunction, a, b);
    case _ => LowOrder(a, b);
  }

  lemma AtomicAccess(env: Env, m: Memory, c: Control, e: ExecuteInterstage)
    requires e.inst.opcode.Amo? && e.signals == SignalsOf(env, e.inst) && e.excause == NoException
    requires !env.dataFault(e.aluVal, WriteOp, c.privilege, c.csrs)
    ensures
      var a, op := e.aluVal.bits, e.inst.opcode;
      DataAccess(env, m, c, e)
      == if op.wide
         then Access(WriteBytes(m, a, 8, AmoOperation64(op.amo, Read64(m, a), e.valRt.bits)), c.reserved,
                     Word(Read64(m, a)), false)
         else Access(WriteBytes(m, a, 4, AmoOperation32(op.amo, Read32(m, a), e.valRt.bits)), c.reserved,
                     Word(SignExtend32(Read32(m, a))), false)
  {
    hide SignalsOf, NumRs, NumRt, NumRd, FlagsOf, Has, WriteBytes, AmoOperation32, AmoOperation64, Read32, Read64,
      SignExtend32;
    AccessSignals(env, e.inst);
  }

  /** The value an atomic or a load-reserved finds, and how it is extended. */
  lemma FoundIs(m: Memory, wide: bool, a: bv64)
    ensures Unsigned(if wide then Read64(m, a) else SignExtend32(Read32(m, a)))
            == SignedOf(8 * AtomicSize(wide), Cell(m, a, AtomicSize(wide))) % TWO_64
  {
    hide Unsigned, Signed, Read32, Read64, SignExtend32, Cell, SignedOf;
    Read32Is(m, a);
    Read64Is(m, a);
    SignExtendIs(Read32(m, a));
    SignedModulo(SignExtend32(Read32(m, a)));
    SignedIs(Read64(m, a));
    SignedModulo(Read64(m, a));
  }

  lemma StoresSame(m: Memory, m': Memory, a: bv64, size: nat, n: int, x: int)
    requires Stores(m, m', a, size, n) && n % Pow2(8 * size) == x % Pow2(8 * size)
    ensures Stores(m, m', a, size, x)
  {
    hide Unsigned, Cell, Pow2;
  }

  /** What is left in memory. */
  lemma AtomicStores(m: Memory, op: AmoOp, wide: bool, a: bv64, rt: bv64)
    ensures
      var size := AtomicSize(wide);
      Stores(m, if wide then WriteBytes(m, a, 8, AmoOperation64(op, Read64(m, a), rt))
                else WriteBytes(m, a, 4, AmoOperation32(op, Read32(m, a), rt)),
             a, size, AtomicResult(op, 8 * size, Cell(m, a, size), LowNumber(8 * size, rt)))
  {
    hide Unsigned, WriteBytes, AmoOperation32, AmoOperation64, Read32, Read64, Cell, Stores, Pow2, AtomicResult;
    Constants();
    Pow2Bytes();
    Read32Is(m, a);
    Read64Is(m, a);
    Bounded(rt);
    if wide {
      var r, x := AmoOperation64(op, Read64(m, a), rt), AtomicResult(op, 64, Cell(m, a, 8), LowNumber(64, rt));
      AtomicIs64(op, Read64(m, a), rt);
      StoreIs(m, a, 8, r);
      StoresSame(m, WriteBytes(m, a, 8, r), a, 8, Unsigned(r), x);
    } else {
      var r, x := AmoOperation32(op, Read32(m, a), rt), AtomicResult(op, 32, Cell(m, a, 4), LowNumber(32, rt));
      AtomicIs32(op, Read32(m, a), rt);
      StoreIs(m, a, 4, r);
      StoresSame(m, WriteBytes(m, a, 4, r), a, 4, Unsigned(r), x);
    }
  }

  /** An atomic leaves what it found, signed, in its destination and the result of its operation in memory. */
  lemma AtomicMeaning(env: Env, s: ArchState, inst: Instruction, predicted: Word) returns (v: Word)
    requires Runs(env, s, inst) && inst.opcode.Amo?
    requires !env.dataFault(Address(env, s, inst), WriteOp, s.control.privilege, s.control.csrs)
    ensures
      var s', a, size := SingleStep(env, s, predicted), Address(env, s, inst).bits, AtomicSize(inst.opcode.wide);
      var held := Cell(s.memory, a, size);
      && Holds(env.xlen, v, SignedOf(8 * size, held)) && s'.regs == WriteGp(s.regs, inst.rd, v)
      && Stores(s.memory, s'.memory, a, size,
                AtomicResult(inst.opcode.amo, 8 * size, held, LowNumber(8 * size, ReadGp(s.regs, inst.rt).bits)))
      && Reaches(s'.pc, Unsigned(s.pc.bits) + 4) && s'.control == Counted(env, s.control)
  {
    hide SingleExecute, SignalsOf, Runs, DataAccess, SingleStep, WriteInternal, WriteGp, Truncate, Unsigned, Reaches,
      WriteBytes, Address, Stores, ReadGp, AmoOperation32, AmoOperation64, Read32, Read64, SignExtend32, Cell, SignedOf,
      AtomicResult, LowNumber, Holds;
    RunsExecute(env, s, inst);
    AccessExecutes(env, s, inst);
    AtomicAccess(env, s.memory, s.control, SingleExecute(env, s, ZERO));
    AccessStep(env, s, inst, predicted);
    var a, wide := Address(env, s, inst).bits, inst.opcode.wide;
    var found := if wide then Read64(s.memory, a) else SignExtend32(Read32(s.memory, a));
    v := Truncate(env.xlen, Word(found));
    FoundIs(s.memory, wide, a);
    HoldsModulo(env.xlen, found, SignedOf(8 * AtomicSize(wide), Cell(s.memory, a, AtomicSize(wide))));
    AtomicStores(s.memory, inst.opcode.amo, wide, a, ReadGp(s.regs, inst.rt).bits);
  }

  lemma ReservedAccess(env: Env, m: Memory, c: Control, e: ExecuteInterstage)
    requires e.inst.opcode.Lr? && e.signals == SignalsOf(env, e.inst) && e.excause == NoException
    requires !env.dataFault(e.aluVal, WriteOp, c.privilege, c.csrs)
    ensures
      var a, wide := e.aluVal.bits, e.inst.opcode.wide;
      DataAccess(env, m, c, e)
      == Access(m, RangeAt(e.aluVal, wide), Word(if wide then Read64(m, a) else SignExtend32(Read32(m, a))), false)
  {
    hide SignalsOf, NumRs, NumRt, NumRd, FlagsOf, Has, Read32, Read64, SignExtend32, RangeAt;
    AccessSignals(env, e.inst);
  }

  /** A load-reserved leaves the signed number it finds in its destination and reserves its bytes. */
  lemma LoadReservedMeaning(env: Env, s: ArchState, inst: Instruction, predicted: Word) returns (v: Word)
    requires Runs(env, s, inst) && inst.opcode.Lr?
    requires !env.dataFault(Address(env, s, inst), WriteOp, s.control.privilege, s.control.csrs)
    ensures
      var s', a, wide := SingleStep(env, s, predicted), Address(env, s, inst), inst.opcode.wide;
      && Holds(env.xlen, v, SignedOf(8 * AtomicSize(wide), Cell(s.memory, a.bits, AtomicSize(wide))))
      && s'.regs == WriteGp(s.regs, inst.rd, v) && s'.memory == s.memory && Reaches(s'.pc, Unsigned(s.pc.bits) + 4)
      && s'.control == Counted(env, s.control).(reserved := RangeAt(a, wide))
  {
    hide SingleExecute, SignalsOf, Runs, DataAccess, SingleStep, WriteInternal, WriteGp, Truncate, Unsigned, Reaches,
      Address, Read32, Read64, SignExtend32, Cell, SignedOf, Holds, RangeAt;
    RunsExecute(env, s, inst);
    AccessExecutes(env, s, inst);
    ReservedAccess(env, s.memory, s.control, SingleExecute(env, s, ZERO));
    AccessStep(env, s, inst, predicted);
    var a, wide := Address(env, s, inst).bits, inst.opcode.wide;
    var found := if wide then Read64(s.memory, a) else SignExtend32(Read32(s.memory, a));
    v := Truncate(env.xlen, Word(found));
    FoundIs(s.memory, wide, a);
    HoldsModulo(env.xlen, found, SignedOf(8 * AtomicSize(wide), Cell(s.memory, a, AtomicSize(wide))));
  }

  // ---------------------------------------------------------------- fences

  lemma FenceSignals(env: Env, inst: Instruction)
    requires inst.opcode == Wfi || inst.opcode == Fence || inst.opcode == Sfence
    ensures
      var g := SignalsOf(env, inst);
      && !g.regwrite && !g.csrWrite && !g.xret && !g.branchBxx && !g.branchJal && !g.branchJalr
      && g.memctl == if inst.opcode == Wfi then AccessNone else if inst.opcode == Fence then CacheOp else SfenceVma
  {
  }

  lemma FenceAccess(env: Env, m: Memory, c: Control, e: ExecuteInterstage)
    requires e.signals.memctl in {AccessNone, CacheOp, SfenceVma} && e.excause == NoException
    ensures DataAccess(env, m, c, e)
            == Access(m, if e.signals.memctl == SfenceVma then EMPTY_RANGE else c.reserved, e.aluVal, false)
  {
  }

  /** wfi and fence only go on to the next instruction; sfence.vma drops the reservation as well. */
  lemma FenceMeaning(env: Env, s: ArchState, inst: Instruction, predicted: Word)
    requires Runs(env, s, inst) && (inst.opcode == Wfi || inst.opcode == Fence || inst.opcode == Sfence)
    ensures
      var s' := SingleStep(env, s, predicted);
      && s'.regs == s.regs && s'.memory == s.memory && Reaches(s'.pc, Unsigned(s.pc.bits) + 4)
      && s'.control == Counted(env, if inst.opcode == Sfence then s.control.(reserved := EMPTY_RANGE) else s.control)
  {
    hide SingleExecute, SignalsOf, Runs, DataAccess, WriteInternal, Write, WriteGp, Truncate, Offset, Unsigned, NumRs,
      NumRt, NumRd, FlagsOf, Has, Reaches;
    PredictionIrrelevant(env, s, predicted, ZERO);
    RunsExecute(env, s, inst);
    FenceSignals(env, inst);
    FenceAccess(env, s.memory, s.control, SingleExecute(env, s, ZERO));
    ReachesNext(s.pc);
  }
}
