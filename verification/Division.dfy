/** The M extension as sections 7.1 and 7.2 of the unprivileged ISA specify it. */
module Division {
  import opened Words
  import opened Isa
  import opened Semantics

  lemma SignedU32(n: int)
    requires -0x8000_0000 <= n < 0x8000_0000
    ensures Signed(U32(n)) == n
  {
  }

  lemma Scales(q: nat, k: nat, y: nat)
    requires k <= y
    ensures k * q <= y * q
  {
    assert (y - k) * q >= 0;
  }

  lemma FloorLaw(x: nat, y: nat)
    requires y > 0
    ensures x == y * (x / y) + x % y && 0 <= x % y < y && 0 <= x / y <= x
    ensures y >= 2 ==> 2 * (x / y) <= x
  {
    var q := x / y;
    assert x == y * q + x % y;
    Scales(q, 1, y);
    if y >= 2 { Scales(q, 2, y); }
  }

  lemma NegatedProduct(b: int, q: int)
    ensures (0 - b) * q == b * (0 - q) == 0 - b * q
  {
  }

  /** Truncation in terms of magnitudes: the quotient's sign is the product's, the remainder's the dividend's. */
  lemma TruncLaw(a: int, b: int)
    requires b != 0
    ensures var x, y := Abs(a), Abs(b);
      && TruncDiv(a, b) == (if (a >= 0) == (b > 0) then x / y else 0 - x / y)
      && TruncRem(a, b) == (if a >= 0 then x % y else 0 - x % y)
  {
    var q := Abs(a) / Abs(b);
    FloorLaw(Abs(a), Abs(b));
    NegatedProduct(b, q);
    NegatedProduct(Abs(b), q);
  }

  /** DIV and REM: dividend = divisor * quotient + remainder, with the ISA's two exceptional results. */
  lemma DivRemLaw(a: uint32, b: uint32)
    ensures var q, r := Signed(MulDivide(Div, a, b)), Signed(MulDivide(Rem, a, b));
      if b == 0 then q == -1 && r == Signed(a)
      else if Signed(a) == -0x8000_0000 && Signed(b) == -1 then q == -0x8000_0000 && r == 0
      else Signed(a) == Signed(b) * q + r && Abs(r) < Abs(Signed(b)) && (r != 0 ==> (r > 0 <==> Signed(a) > 0))
  {
    var x, y := Signed(a), Signed(b);
    if y != 0 && !(x == -0x8000_0000 && y == -1) {
      TruncLaw(x, y);
      FloorLaw(Abs(x), Abs(y));
      SignedU32(TruncDiv(x, y));
      SignedU32(TruncRem(x, y));
    }
  }

  lemma DivuRemuLaw(a: uint32, b: uint32)
    ensures var q, r := MulDivide(Divu, a, b), MulDivide(Remu, a, b);
      if b == 0 then q == TWO32 - 1 && r == a else a == b * q + r && r < b
  {
    if b != 0 {
      FloorLaw(a, b);
    }
  }

  lemma HighLow(n: int)
    requires -0x8000_0000 * TWO32 <= n < TWO32 * TWO32
    ensures if n < 0x8000_0000 * TWO32 then n == Signed(U32(n / TWO32)) * TWO32 + U32(n)
            else n == U32(n / TWO32) * TWO32 + U32(n)
  {
  }

  lemma ProductBounds(x: int, y: int)
    requires -0x8000_0000 <= x < 0x8000_0000 && -0x8000_0000 <= y < TWO32
    ensures -0x8000_0000 * TWO32 <= x * y < 0x8000_0000 * TWO32
    ensures y < 0x8000_0000 ==> x * y <= 0x4000_0000 * TWO32
  {
    var m := Abs(x) * Abs(y);
    Scales(Abs(y), Abs(x), 0x8000_0000);
    assert x * y == if (x < 0) == (y < 0) then m else 0 - m;
  }

  lemma UnsignedProduct(a: uint32, b: uint32)
    ensures 0 <= a * b < TWO32 * TWO32
  {
    Scales(b, a, TWO32 - 1);
  }

  /** The high and low halves together are the exact 64-bit product, for each signedness. */
  lemma MulhLaw(a: uint32, b: uint32)
    ensures Signed(MulDivide(Mulh, a, b)) * TWO32 + MulDivide(Mul, a, b) == Signed(a) * Signed(b)
  {
    ProductBounds(Signed(a), Signed(b));
    HighLow(Signed(a) * Signed(b));
    SameLow(a, b);
  }

  lemma MulhsuLaw(a: uint32, b: uint32)
    ensures Signed(MulDivide(Mulhsu, a, b)) * TWO32 + MulDivide(Mul, a, b) == Signed(a) * b
  {
    ProductBounds(Signed(a), b);
    HighLow(Signed(a) * b);
    SameLow(a, b);
  }

  lemma MulhuLaw(a: uint32, b: uint32)
    ensures MulDivide(Mulhu, a, b) * TWO32 + MulDivide(Mul, a, b) == a * b
  {
    UnsignedProduct(a, b);
    var n := a * b;
    assert n == TWO32 * (n / TWO32) + n % TWO32 && 0 <= n / TWO32 < TWO32;
  }

  lemma SameLow(a: uint32, b: uint32)
    ensures U32(Signed(a) * Signed(b)) == U32(a * b) == U32(Signed(a) * b)
  {
    var i, j := (a - Signed(a)) / TWO32, (b - Signed(b)) / TWO32;
    assert a == Signed(a) + i * TWO32 && b == Signed(b) + j * TWO32;
    AddMultiple(Signed(a) * b, i * b);
    AddMultiple(Signed(a) * Signed(b), Signed(a) * j);
    assert a * b == Signed(a) * b + (i * b) * TWO32;
    assert Signed(a) * b == Signed(a) * Signed(b) + (Signed(a) * j) * TWO32;
  }

  lemma AddMultiple(n: int, k: int)
    ensures U32(n + k * TWO32) == U32(n)
  {
  }
}
