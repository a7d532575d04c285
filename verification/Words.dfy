/** Fixed-width unsigned words as bounded integers, with the wrap-around the C++ types have. */
module Words {
  const TWO32: int := 0x1_0000_0000
  const TWO64: int := 0x1_0000_0000_0000_0000

  type uint8 = x: int | 0 <= x < 0x100
  type uint16 = x: int | 0 <= x < 0x1_0000
  type uint32 = x: int | 0 <= x < 0x1_0000_0000
  type uint64 = x: int | 0 <= x < 0x1_0000_0000_0000_0000

  datatype Option<+T> = None | Some(value: T)

  /** The low 32 bits of any integer: every C++ conversion to uint32_t. */
  function U32(n: int): uint32 {
    n % TWO32
  }

  function U64(n: int): uint64 {
    n % TWO64
  }

  /** Two's-complement reading of a word: int32_t(a). */
  function Signed(a: uint32): int {
    if a < 0x8000_0000 then a else a - TWO32
  }

  function Min(a: int, b: int): int {
    if a <= b then a else b
  }

  function Max(a: int, b: int): int {
    if a <= b then b else a
  }

  /** C++ division and remainder truncate toward zero. */
  function TruncDiv(a: int, b: int): int
    requires b != 0
  {
    if a >= 0 then if b > 0 then a / b else -(a / -b)
    else if b > 0 then -(-a / b) else -a / -b
  }

  function TruncRem(a: int, b: int): int
    requires b != 0
  {
    a - b * TruncDiv(a, b)
  }

  function Abs(n: int): nat {
    if n < 0 then 0 - n else n
  }

  function Pow2(n: nat): (r: nat)
    ensures r >= 1
  {
    if n == 0 then 1 else 2 * Pow2(n - 1)
  }

  /** A 32-bit vector read as an unsigned number. */
  function Value(v: bv32): uint32 {
    v as int
  }

  /** A word as a 32-bit vector. */
  function Vector(a: uint32): bv32 {
    a as bv32
  }

  function And32(a: uint32, b: uint32): uint32 {
    ((a as bv32) & (b as bv32)) as int
  }

  function Or32(a: uint32, b: uint32): uint32 {
    ((a as bv32) | (b as bv32)) as int
  }

  function Xor32(a: uint32, b: uint32): uint32 {
    ((a as bv32) ^ (b as bv32)) as int
  }

  // Little-endian fields of byte strings.
  function Le16(b: seq<uint8>, o: nat): uint16
    requires o + 2 <= |b|
  {
    (b[o] as int) + 0x100 * (b[o + 1] as int)
  }

  function Le32(b: seq<uint8>, o: nat): uint32
    requires o + 4 <= |b|
  {
    (b[o] as int) + 0x100 * (b[o + 1] as int) + 0x1_0000 * (b[o + 2] as int) + 0x100_0000 * (b[o + 3] as int)
  }

  function Bytes16(v: uint16): (b: seq<uint8>)
    ensures |b| == 2
  {
    [v % 0x100, v / 0x100]
  }

  function Bytes32(v: uint32): (b: seq<uint8>)
    ensures |b| == 4
  {
    [v % 0x100, v / 0x100 % 0x100, v / 0x1_0000 % 0x100, v / 0x100_0000]
  }

  // Reading back what was written.

  lemma Bytes32RoundTrip(n: uint32)
    ensures Le32(Bytes32(n), 0) == n
  {
    hide Le32;
    var q1 := n / 0x100;
    var q2 := q1 / 0x100;
    NestedQuotient(n);
    assert Le32(Bytes32(n), 0)
           == n % 0x100 + 0x100 * (q1 % 0x100) + 0x1_0000 * (q2 % 0x100) + 0x100_0000 * (q2 / 0x100) by {
      Le32Is(Bytes32(n));
    }
    assert n == 0x100 * q1 + n % 0x100 && q1 == 0x100 * q2 + q1 % 0x100 && q2 == 0x100 * (q2 / 0x100) + q2 % 0x100;
  }

  lemma Le32Is(b: seq<uint8>)
    requires |b| == 4
    ensures Le32(b, 0) == b[0] as int + 0x100 * (b[1] as int) + 0x1_0000 * (b[2] as int) + 0x100_0000 * (b[3] as int)
  {
  }

  lemma NestedQuotient(n: uint32)
    ensures n / 0x1_0000 == n / 0x100 / 0x100 && n / 0x100_0000 == n / 0x1_0000 / 0x100
  {
  }

  /** A field that holds the bytes of a number reads as that number. */
  lemma FieldReads32(b: seq<uint8>, o: nat, v: uint32)
    requires o + 4 <= |b| && b[o..o + 4] == Bytes32(v)
    ensures Le32(b, o) == v
  {
    hide Bytes32;
    Bytes32RoundTrip(v);
    assert b[o..o + 4][0] == b[o] && b[o..o + 4][1] == b[o + 1];
    assert b[o..o + 4][2] == b[o + 2] && b[o..o + 4][3] == b[o + 3];
  }

  lemma FieldReads16(b: seq<uint8>, o: nat, v: uint16)
    requires o + 2 <= |b| && b[o..o + 2] == Bytes16(v)
    ensures Le16(b, o) == v
  {
    assert b[o..o + 2][0] == b[o] && b[o..o + 2][1] == b[o + 1];
  }

  /** Numbers one after the other, four bytes each. */
  function PackWords(ws: seq<uint32>): (b: seq<uint8>)
    ensures |b| == 4 * |ws|
  {
    if ws == [] then [] else PackWords(ws[..|ws| - 1]) + Bytes32(ws[|ws| - 1])
  }

  lemma {:induction false} PackedWordAt(ws: seq<uint32>, i: nat)
    requires i < |ws|
    ensures PackWords(ws)[4 * i..4 * i + 4] == Bytes32(ws[i])
    decreases |ws|
  {
    hide Bytes32;
    if i == |ws| - 1 {
    } else {
      PackedWordAt(ws[..|ws| - 1], i);
      assert PackWords(ws)[4 * i..4 * i + 4] == PackWords(ws[..|ws| - 1])[4 * i..4 * i + 4];
    }
  }
}
