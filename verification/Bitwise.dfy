/** What the shifts, the logic and the atomic operations do to the single bits of a word. */
module Bitwise {
  import opened Words
  import opened Isa
  import opened Semantics
  import opened Quotients

  /** Bit k of a word. */
  predicate Bit(a: uint32, k: nat) {
    a / Pow2(k) % 2 == 1
  }

  lemma {:induction false} Pow2Adds(m: nat, n: nat)
    ensures Pow2(m + n) == Pow2(m) * Pow2(n)
  {
    if m == 0 {
    } else {
      Pow2Adds(m - 1, n);
      assert 2 * (Pow2(m - 1) * Pow2(n)) == 2 * Pow2(m - 1) * Pow2(n);
    }
  }

  lemma {:induction false} Pow2Splits(n: nat)
    requires n <= 32
    ensures Pow2(n) * Pow2(32 - n) == TWO32
  {
    Pow2Adds(n, 32 - n);
    Pow2Of32();
  }

  lemma Pow2Of32()
    ensures Pow2(32) == TWO32 && Pow2(31) == 0x8000_0000
  {
    assert Pow2(8) == 0x100;
    Pow2Adds(8, 8);
    Pow2Adds(16, 8);
    Pow2Adds(24, 7);
    assert Pow2(7) == 0x80;
  }

  /** Shifting down twice is shifting down by the sum. */
  lemma DownTwice(v: int, n: nat, k: nat)
    ensures v / Pow2(n) / Pow2(k) == v / Pow2(n + k)
  {
    Pow2Adds(n, k);
    DivideTwice(v, Pow2(n), Pow2(k));
  }

  /** The low 32 bits of an integer survive the reduction to a word. */
  lemma WordKeepsBits(v: int, k: nat)
    requires k < 32
    ensures Bit(U32(v), k) <==> v / Pow2(k) % 2 == 1
  {
    var q, half := v / TWO32, Pow2(31 - k);
    Pow2Splits(k);
    assert v == U32(v) + TWO32 * q && Pow2(32 - k) == 2 * half;
    Regroup(Pow2(k), half, q);
    DropMultiple(U32(v), Pow2(k), half * q);
  }

  lemma Regroup(p: int, h: int, q: int)
    ensures p * (2 * h) * q == p * (2 * (h * q)) == q * (p * (2 * h))
  {
  }

  /** An even multiple of d changes the quotient by d, but not its last bit. */
  lemma DropMultiple(v: int, d: nat, m: int)
    requires d > 0
    ensures (v + d * (2 * m)) / d % 2 == v / d % 2
  {
    AddMultiple(v, d, 2 * m);
  }

  lemma NoHighBits(a: uint32, k: nat)
    requires k >= 32
    ensures a / Pow2(k) == 0
  {
    Pow2Adds(32, k - 32);
    Pow2Of32();
    assert TWO32 * Pow2(k - 32) >= TWO32;
    Quotient(a, Pow2(k), 0, a);
  }

  lemma RightShiftBit(a: uint32, n: nat, k: nat)
    requires n < 32 && k < 32
    ensures Bit(ShiftRight(a, n), k) <==> k + n < 32 && Bit(a, k + n)
  {
    WordKeepsBits(a / Pow2(n), k);
    DownTwice(a, n, k);
    if k + n >= 32 { NoHighBits(a, k + n); }
  }

  lemma LeftShiftBit(a: uint32, n: nat, k: nat)
    requires n < 32 && k < 32
    ensures Bit(ShiftLeft(a, n), k) <==> k >= n && Bit(a, k - n)
  {
    WordKeepsBits(a * Pow2(n), k);
    if k >= n {
      DownTwice(a * Pow2(n), n, k - n);
      Undo(a, Pow2(n));
    } else {
      Pow2Adds(k, n - k);
      NoLowBits(a, Pow2(k), Pow2(n - k - 1));
    }
  }

  lemma NoLowBits(a: nat, p: nat, m: nat)
    requires p > 0
    ensures a * (p * (2 * m)) / p % 2 == 0
  {
    Regroup(p, m, a);
    DropMultiple(0, p, m * a);
    assert 0 / p == 0;
  }

  /** The sign bit fills in from above. */
  lemma ArithmeticShiftBit(a: uint32, n: nat, k: nat)
    requires n < 32 && k < 32
    ensures Bit(ShiftArithmetic(a, n), k) <==> Bit(a, Min(k + n, 31))
  {
    WordKeepsBits(Signed(a) / Pow2(n), k);
    DownTwice(Signed(a), n, k);
    if k + n < 32 {
      WordKeepsBits(Signed(a), k + n);
      assert U32(Signed(a)) == a;
    } else {
      WordKeepsBits(Signed(a), 31);
      assert U32(Signed(a)) == a;
      SignOnly(Signed(a), k + n);
      SignOnly(Signed(a), 31);
    }
  }

  /** Past its 31 low bits a signed word is all sign. */
  lemma SignOnly(v: int, k: nat)
    requires -0x8000_0000 <= v < 0x8000_0000 && k >= 31
    ensures v / Pow2(k) == if v < 0 then -1 else 0
  {
    Pow2Adds(31, k - 31);
    Pow2Of32();
    assert 0x8000_0000 * Pow2(k - 31) >= 0x8000_0000;
    if v < 0 { Quotient(v, Pow2(k), -1, v + Pow2(k)); } else { Quotient(v, Pow2(k), 0, v); }
  }

  // Words as bit vectors.

  function Down(v: bv32): bv32 {
    v >> 1
  }

  predicate Odd(v: bv32) {
    v & 1 != 0
  }

  function Both(v: bv32, w: bv32): bv32 {
    v & w
  }

  function Either(v: bv32, w: bv32): bv32 {
    v | w
  }

  function Differing(v: bv32, w: bv32): bv32 {
    v ^ w
  }

  predicate VectorBit(v: bv32, k: nat) {
    if k == 0 then Odd(v) else VectorBit(Down(v), k - 1)
  }

  /** The bit of a word that a mask picks out is the binary digit worth p. */
  predicate Agrees(a: uint32, mask: bv32, p: nat)
    requires p > 0
  {
    Vector(a) & mask != 0 <==> a / p % 2 == 1
  }

  lemma FirstByte(a: uint32)
    ensures Agrees(a, 0x1, 0x1) && Agrees(a, 0x2, 0x2)
    ensures Agrees(a, 0x4, 0x4) && Agrees(a, 0x8, 0x8)
    ensures Agrees(a, 0x10, 0x10) && Agrees(a, 0x20, 0x20)
    ensures Agrees(a, 0x40, 0x40) && Agrees(a, 0x80, 0x80)
  {
  }

  lemma SecondByte(a: uint32)
    ensures Agrees(a, 0x100, 0x100) && Agrees(a, 0x200, 0x200)
    ensures Agrees(a, 0x400, 0x400) && Agrees(a, 0x800, 0x800)
    ensures Agrees(a, 0x1000, 0x1000) && Agrees(a, 0x2000, 0x2000)
    ensures Agrees(a, 0x4000, 0x4000) && Agrees(a, 0x8000, 0x8000)
  {
  }

  lemma ThirdByte(a: uint32)
    ensures Agrees(a, 0x10000, 0x10000) && Agrees(a, 0x20000, 0x20000)
    ensures Agrees(a, 0x40000, 0x40000) && Agrees(a, 0x80000, 0x80000)
    ensures Agrees(a, 0x100000, 0x100000) && Agrees(a, 0x200000, 0x200000)
    ensures Agrees(a, 0x400000, 0x400000) && Agrees(a, 0x800000, 0x800000)
  {
  }

  lemma FourthByte(a: uint32)
    ensures Agrees(a, 0x1000000, 0x1000000) && Agrees(a, 0x2000000, 0x2000000)
    ensures Agrees(a, 0x4000000, 0x4000000) && Agrees(a, 0x8000000, 0x8000000)
    ensures Agrees(a, 0x10000000, 0x10000000) && Agrees(a, 0x20000000, 0x20000000)
    ensures Agrees(a, 0x40000000, 0x40000000) && Agrees(a, 0x80000000, 0x80000000)
  {
  }

  lemma Halves(a: uint32)
    ensures a / 2 / 0x1 == a / 0x2 && a / 2 / 0x2 == a / 0x4
    ensures a / 2 / 0x4 == a / 0x8 && a / 2 / 0x8 == a / 0x10
    ensures a / 2 / 0x10 == a / 0x20 && a / 2 / 0x20 == a / 0x40
    ensures a / 2 / 0x40 == a / 0x80 && a / 2 / 0x80 == a / 0x100
    ensures a / 2 / 0x100 == a / 0x200 && a / 2 / 0x200 == a / 0x400
    ensures a / 2 / 0x400 == a / 0x800 && a / 2 / 0x800 == a / 0x1000
    ensures a / 2 / 0x1000 == a / 0x2000 && a / 2 / 0x2000 == a / 0x4000
    ensures a / 2 / 0x4000 == a / 0x8000 && a / 2 / 0x8000 == a / 0x10000
    ensures a / 2 / 0x10000 == a / 0x20000 && a / 2 / 0x20000 == a / 0x40000
    ensures a / 2 / 0x40000 == a / 0x80000 && a / 2 / 0x80000 == a / 0x100000
    ensures a / 2 / 0x100000 == a / 0x200000 && a / 2 / 0x200000 == a / 0x400000
    ensures a / 2 / 0x400000 == a / 0x800000 && a / 2 / 0x800000 == a / 0x1000000
    ensures a / 2 / 0x1000000 == a / 0x2000000 && a / 2 / 0x2000000 == a / 0x4000000
    ensures a / 2 / 0x4000000 == a / 0x8000000 && a / 2 / 0x8000000 == a / 0x10000000
    ensures a / 2 / 0x10000000 == a / 0x20000000 && a / 2 / 0x20000000 == a / 0x40000000
    ensures a / 2 / 0x40000000 == a / 0x80000000
    ensures a / 2 / 0x8000_0000 == 0
  {
  }

  lemma HalfVector(a: uint32)
    ensures Vector(a / 2) == Down(Vector(a))
  {
    hide Vector;
    FirstByte(a);
    SecondByte(a);
    ThirdByte(a);
    FourthByte(a);
    FirstByte(a / 2);
    SecondByte(a / 2);
    ThirdByte(a / 2);
    FourthByte(a / 2);
    Halves(a);
  }

  lemma {:induction false} VectorBitIs(a: uint32, k: nat)
    ensures VectorBit(Vector(a), k) <==> Bit(a, k)
    decreases k
  {
    hide Vector;
    if k == 0 {
      FirstByte(a);
    } else {
      HalfVector(a);
      VectorBitIs(a / 2, k - 1);
      DivideTwice(a, 2, Pow2(k - 1));
    }
  }

  lemma {:induction false} VectorLogic(v: bv32, w: bv32, k: nat)
    ensures VectorBit(Both(v, w), k) <==> VectorBit(v, k) && VectorBit(w, k)
    ensures VectorBit(Either(v, w), k) <==> VectorBit(v, k) || VectorBit(w, k)
    ensures VectorBit(Differing(v, w), k) <==> VectorBit(v, k) != VectorBit(w, k)
    decreases k
  {
    hide Both, Either, Differing, Down, Odd;
    if k == 0 {
      LowLogic(v, w);
    } else {
      VectorLogic(Down(v), Down(w), k - 1);
      DownLogic(v, w);
    }
  }

  lemma LowLogic(v: bv32, w: bv32)
    ensures Odd(Both(v, w)) <==> Odd(v) && Odd(w)
    ensures Odd(Either(v, w)) <==> Odd(v) || Odd(w)
    ensures Odd(Differing(v, w)) <==> Odd(v) != Odd(w)
  {
    hide Both, Either, Differing, Odd;
    LowBoth(v, w);
    LowEither(v, w);
    LowDiffering(v, w);
  }

  lemma DownLogic(v: bv32, w: bv32)
    ensures Down(Both(v, w)) == Both(Down(v), Down(w))
    ensures Down(Either(v, w)) == Either(Down(v), Down(w))
    ensures Down(Differing(v, w)) == Differing(Down(v), Down(w))
  {
    hide Both, Either, Differing, Down;
    DownBoth(v, w);
    DownEither(v, w);
    DownDiffering(v, w);
  }

  lemma LowBoth(v: bv32, w: bv32)
    ensures Odd(Both(v, w)) <==> Odd(v) && Odd(w)
  {
  }

  lemma DownBoth(v: bv32, w: bv32)
    ensures Down(Both(v, w)) == Both(Down(v), Down(w))
  {
  }

  lemma LowEither(v: bv32, w: bv32)
    ensures Odd(Either(v, w)) <==> Odd(v) || Odd(w)
  {
  }

  lemma DownEither(v: bv32, w: bv32)
    ensures Down(Either(v, w)) == Either(Down(v), Down(w))
  {
  }

  lemma LowDiffering(v: bv32, w: bv32)
    ensures Odd(Differing(v, w)) <==> Odd(v) != Odd(w)
  {
  }

  lemma DownDiffering(v: bv32, w: bv32)
    ensures Down(Differing(v, w)) == Differing(Down(v), Down(w))
  {
  }

  lemma VectorOf(v: bv32)
    ensures Vector(v as int) == v
  {
  }

  lemma LogicBit(a: uint32, b: uint32, k: nat)
    ensures Bit(And32(a, b), k) <==> Bit(a, k) && Bit(b, k)
    ensures Bit(Or32(a, b), k) <==> Bit(a, k) || Bit(b, k)
    ensures Bit(Xor32(a, b), k) <==> Bit(a, k) != Bit(b, k)
  {
    hide Bit, VectorBit, Vector, Both, Either, Differing, And32, Or32, Xor32;
    LogicVectors(a, b);
    VectorLogic(Vector(a), Vector(b), k);
    VectorBitIs(a, k);
    VectorBitIs(b, k);
    VectorBitIs(And32(a, b), k);
    VectorBitIs(Or32(a, b), k);
    VectorBitIs(Xor32(a, b), k);
  }

  lemma LogicVectors(a: uint32, b: uint32)
    ensures Vector(And32(a, b)) == Both(Vector(a), Vector(b))
    ensures Vector(Or32(a, b)) == Either(Vector(a), Vector(b))
    ensures Vector(Xor32(a, b)) == Differing(Vector(a), Vector(b))
  {
    hide Both, Either, Differing, Vector, And32, Or32, Xor32;
    VectorOf(Both(Vector(a), Vector(b)));
    VectorOf(Either(Vector(a), Vector(b)));
    VectorOf(Differing(Vector(a), Vector(b)));
    AndIs(a, b);
    OrIs(a, b);
    XorIs(a, b);
  }

  lemma AndIs(a: uint32, b: uint32)
    ensures And32(a, b) == Both(Vector(a), Vector(b)) as int
  {
  }

  lemma OrIs(a: uint32, b: uint32)
    ensures Or32(a, b) == Either(Vector(a), Vector(b)) as int
  {
  }

  lemma XorIs(a: uint32, b: uint32)
    ensures Xor32(a, b) == Differing(Vector(a), Vector(b)) as int
  {
  }

  // The instructions.

  /**
   * The shifts move bits by the low five bits of the second operand: zeros come in from below and, for SRL, from
   * above; for SRA the sign bit does.
   */
  lemma ShiftBits(a: uint32, b: uint32, k: nat)
    requires k < 32
    ensures Bit(Alu(Sll, a, b), k) <==> k >= b % 32 && Bit(a, k - b % 32)
    ensures Bit(Alu(Srl, a, b), k) <==> k + b % 32 < 32 && Bit(a, k + b % 32)
    ensures Bit(Alu(Sra, a, b), k) <==> Bit(a, Min(k + b % 32, 31))
  {
    hide Bit, ShiftLeft, ShiftRight, ShiftArithmetic;
    LeftShiftBit(a, b % 32, k);
    RightShiftBit(a, b % 32, k);
    ArithmeticShiftBit(a, b % 32, k);
  }

  /** The logic operations, of the base set and atomic, work on each bit alone. */
  lemma LogicBits(a: uint32, b: uint32, k: nat)
    ensures Bit(Alu(And, a, b), k) <==> Bit(a, k) && Bit(b, k)
    ensures Bit(Alu(Or, a, b), k) <==> Bit(a, k) || Bit(b, k)
    ensures Bit(Alu(Xor, a, b), k) <==> Bit(a, k) != Bit(b, k)
    ensures Bit(AmoResult(AmoAnd, a, b), k) <==> Bit(a, k) && Bit(b, k)
    ensures Bit(AmoResult(AmoOr, a, b), k) <==> Bit(a, k) || Bit(b, k)
    ensures Bit(AmoResult(AmoXor, a, b), k) <==> Bit(a, k) != Bit(b, k)
  {
    hide Bit, And32, Or32, Xor32;
    LogicBit(a, b, k);
  }

  /** A word is its 32 bits: no two words have the same ones. */
  lemma {:induction false} BitsDecide(a: uint32, b: uint32, n: nat)
    requires n <= 32 && a < Pow2(n) && b < Pow2(n)
    requires forall k: nat | k < n :: Bit(a, k) <==> Bit(b, k)
    ensures a == b
    decreases n
  {
    if n == 0 {
    } else {
      forall k: nat | k < n - 1 ensures Bit(a / 2, k) <==> Bit(b / 2, k) {
        DivideTwice(a, 2, Pow2(k));
        DivideTwice(b, 2, Pow2(k));
        assert Bit(a, k + 1) <==> Bit(b, k + 1);
      }
      BitsDecide(a / 2, b / 2, n - 1);
      assert Bit(a, 0) <==> Bit(b, 0);
    }
  }

  /** The sum and the choices of the atomic operations; min and max pick one of their operands. */
  lemma AtomicChoices(word: uint32, b: uint32)
    ensures AmoResult(Swap, word, b) == b && U32(AmoResult(AmoAdd, word, b) - b) == word
    ensures forall op: AmoOp | op in {AmoMin, AmoMax, AmoMinu, AmoMaxu} :: AmoResult(op, word, b) in {word, b}
    ensures Signed(AmoResult(AmoMin, word, b)) <= Signed(word) <= Signed(AmoResult(AmoMax, word, b))
    ensures Signed(AmoResult(AmoMin, word, b)) <= Signed(b) <= Signed(AmoResult(AmoMax, word, b))
    ensures AmoResult(AmoMinu, word, b) <= word <= AmoResult(AmoMaxu, word, b)
    ensures AmoResult(AmoMinu, word, b) <= b <= AmoResult(AmoMaxu, word, b)
  {
  }

  const SIGN: uint32 := 0x8000_0000

  lemma SignBit(k: nat)
    requires k < 32
    ensures Bit(SIGN, k) <==> k == 31
  {
    Pow2Of32();
    Pow2Adds(k, 31 - k);
    if k < 31 {
      assert SIGN == 0 + Pow2(k) * (2 * Pow2(30 - k));
      DropMultiple(0, Pow2(k), Pow2(30 - k));
      assert 0 / Pow2(k) == 0;
    }
  }

  /** Flipping the sign bit is adding half the range. */
  lemma FlipSign(a: uint32)
    ensures Xor32(a, SIGN) == U32(a + SIGN)
  {
    hide Xor32;
    forall k: nat | k < 32 ensures Bit(Xor32(a, SIGN), k) <==> Bit(U32(a + SIGN), k) {
      LogicBit(a, SIGN, k);
      SignBit(k);
      WordKeepsBits(a + SIGN, k);
      HalfRangeBit(a, k);
    }
    Pow2Of32();
    BitsDecide(Xor32(a, SIGN), U32(a + SIGN), 32);
  }

  lemma HalfRangeBit(a: uint32, k: nat)
    requires k < 32
    ensures (a + SIGN) / Pow2(k) % 2 == 1 <==> Bit(a, k) != (k == 31)
  {
    Pow2Of32();
    if k < 31 {
      Pow2Adds(k, 31 - k);
      assert SIGN == Pow2(k) * (2 * Pow2(30 - k));
      DropMultiple(a, Pow2(k), Pow2(30 - k));
    } else {
      AddMultiple(a, SIGN, 1);
    }
  }

  /** Signed order is unsigned order with both sign bits flipped. */
  lemma SignedOrder(a: uint32, b: uint32)
    ensures Alu(Slt, a, b) == Alu(Sltu, Alu(Xor, a, SIGN), Alu(Xor, b, SIGN)) <= 1
  {
    hide Xor32;
    FlipSign(a);
    FlipSign(b);
  }

  /** The six branch conditions are what the set-less-than instructions and subtraction say. */
  lemma BranchConditions(a: uint32, b: uint32)
    ensures Taken(Lt, a, b) <==> Alu(Slt, a, b) == 1
    ensures Taken(Ltu, a, b) <==> Alu(Sltu, a, b) == 1
    ensures Taken(Ge, a, b) <==> Alu(Slt, a, b) == 0
    ensures Taken(Geu, a, b) <==> Alu(Sltu, a, b) == 0
    ensures Taken(Eq, a, b) <==> Alu(Sub, a, b) == 0
    ensures Taken(Ne, a, b) <==> Alu(Sltu, 0, Alu(Sub, a, b)) == 1
    ensures Alu(Sub, Alu(Add, a, b), b) == a && Alu(Add, a, b) == Alu(Add, b, a)
  {
    hide U32;
    Differences(a, b);
  }

  lemma Differences(a: uint32, b: uint32)
    ensures U32(a - b) == 0 <==> a == b
    ensures U32(U32(a + b) - b) == a
  {
  }

  // Sets of bits.

  /** The complement of a word has exactly the other bits. */
  lemma ComplementBit(a: uint32, k: nat)
    requires k < 32
    ensures Bit(TWO32 - 1 - a, k) <==> !Bit(a, k)
  {
    hide Pow2;
    WordKeepsBits(-1 - a, k);
    NegatedQuotient(a, Pow2(k));
    OtherParity(a / Pow2(k));
    Negative(a);
  }

  lemma NegatedQuotient(a: nat, p: nat)
    requires p > 0
    ensures (-1 - a) / p == -1 - a / p
  {
    var q, r := a / p, a % p;
    Negated(p, q, r);
    Quotient(-1 - a, p, -1 - q, p - 1 - r);
  }

  lemma OtherParity(q: int)
    ensures (-1 - q) % 2 == 1 <==> q % 2 == 0
  {
  }

  lemma Negated(p: int, q: int, r: int)
    ensures -1 - (p * q + r) == p * (-1 - q) + (p - 1 - r)
  {
    assert p * (-1 - q) == -p - p * q;
  }

  lemma Negative(a: uint32)
    ensures U32(-1 - a) == TWO32 - 1 - a
  {
  }

  /** A word is contained in another when masking off the other's bits leaves nothing. */
  lemma SubsetOfBits(a: uint32, b: uint32)
    ensures And32(a, TWO32 - 1 - b) == 0 <==> forall k: nat | k < 32 :: Bit(a, k) ==> Bit(b, k)
  {
    hide And32, Bit;
    var rest := And32(a, TWO32 - 1 - b);
    forall k: nat | k < 32 ensures Bit(rest, k) <==> Bit(a, k) && !Bit(b, k) {
      LogicBit(a, TWO32 - 1 - b, k);
      ComplementBit(b, k);
    }
    forall k: nat ensures !Bit(0, k) { ZeroBit(k); }
    if forall k: nat | k < 32 :: Bit(a, k) ==> Bit(b, k) {
      Pow2Of32();
      BitsDecide(rest, 0, 32);
    }
  }

  lemma ZeroBit(k: nat)
    ensures !Bit(0, k)
  {
    Quotient(0, Pow2(k), 0, 0);
  }
}
