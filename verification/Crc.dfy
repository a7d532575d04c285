/** CRC-32 (RFC 1952, section 8) as the cartridge loader and the device protocol compute it. */
module Crc {
  import opened Words

  const POLYNOMIAL: bv32 := 0xEDB8_8320
  const INITIAL: bv32 := 0xffff_ffff
  const BYTE_BITS: nat := 8

  function Xor(a: bv32, b: bv32): bv32 {
    a ^ b
  }

  function Wide(b: bv8): bv32 {
    b as bv32
  }

  /** One bit of the reflected shift register. */
  function BitStep(c: bv32): bv32 {
    Xor(Half(c), Feedback(c))
  }

  function Half(c: bv32): bv32 {
    c >> 1
  }

  function Feedback(c: bv32): bv32 {
    if c & 1 == 1 then POLYNOMIAL else 0
  }

  function BitSteps(c: bv32, n: nat): bv32
    decreases n
  {
    if n == 0 then c else BitSteps(BitStep(c), n - 1)
  }

  function ByteStep(c: bv32, b: bv8): bv32 {
    BitSteps(Xor(c, Wide(b)), BYTE_BITS)
  }

  /** The register after the bytes of `s`. */
  function Register(c: bv32, s: seq<bv8>): bv32
    decreases |s|
  {
    if s == [] then c else Register(ByteStep(c, s[0]), s[1..])
  }

  function Flipped(c: bv32): bv32 {
    !c
  }

  function Complement(c: bv32): uint32 {
    Flipped(c) as int
  }

  function Checksum(s: seq<bv8>): uint32 {
    Complement(Register(INITIAL, s))
  }

  /** The low `n` binary digits of `x`. */
  function Digits(x: nat, n: nat): bv8
    decreases n
  {
    if n == 0 then 0 else Push(Digits(x / 2, n - 1), x % 2 == 1)
  }

  function Push(b: bv8, digit: bool): bv8 {
    (b << 1) | (if digit then 1 else 0)
  }

  /** Bytes as the bit vectors the register works on. */
  function Bits(s: seq<uint8>): (b: seq<bv8>)
    ensures |b| == |s|
  {
    seq(|s|, i requires 0 <= i < |s| => Digits(s[i], BYTE_BITS))
  }

  // Digits are the conversion to bits.

  predicate BitAgrees(v: bv8, n: uint8, mask: bv8, p: nat)
    requires p > 0
  {
    v & mask != 0 <==> n / p % 2 == 1
  }

  predicate BitsAgree(v: bv8, n: uint8) {
    && BitAgrees(v, n, 1, 1) && BitAgrees(v, n, 2, 2) && BitAgrees(v, n, 4, 4) && BitAgrees(v, n, 8, 8)
    && BitAgrees(v, n, 16, 16) && BitAgrees(v, n, 32, 32) && BitAgrees(v, n, 64, 64) && BitAgrees(v, n, 128, 128)
  }

  lemma CastAgrees(n: uint8)
    ensures BitsAgree(n as bv8, n)
  {
  }

  function Pushed(a: bool, b: bool, c: bool, d: bool, e: bool, f: bool, g: bool, h: bool): bv8 {
    Push(Push(Push(Push(Push(Push(Push(Push(0, h), g), f), e), d), c), b), a)
  }

  lemma PushedBits(a: bool, b: bool, c: bool, d: bool, e: bool, f: bool, g: bool, h: bool)
    ensures var v := Pushed(a, b, c, d, e, f, g, h);
      && (v & 1 != 0 <==> a) && (v & 2 != 0 <==> b) && (v & 4 != 0 <==> c) && (v & 8 != 0 <==> d)
      && (v & 16 != 0 <==> e) && (v & 32 != 0 <==> f) && (v & 64 != 0 <==> g) && (v & 128 != 0 <==> h)
  {
  }

  lemma DigitsPushed(n: uint8)
    ensures Digits(n, BYTE_BITS) ==
      Pushed(n % 2 == 1, n / 2 % 2 == 1, n / 4 % 2 == 1, n / 8 % 2 == 1,
             n / 16 % 2 == 1, n / 32 % 2 == 1, n / 64 % 2 == 1, n / 128 % 2 == 1)
  {
    hide Push;
    assert n / 2 / 2 == n / 4 && n / 4 / 2 == n / 8 && n / 8 / 2 == n / 16 && n / 16 / 2 == n / 32;
    assert n / 32 / 2 == n / 64 && n / 64 / 2 == n / 128;
    assert Digits(n / 128, 1) == Push(0, n / 128 % 2 == 1);
    assert Digits(n / 64, 2) == Push(Digits(n / 128, 1), n / 64 % 2 == 1);
    assert Digits(n / 32, 3) == Push(Digits(n / 64, 2), n / 32 % 2 == 1);
    assert Digits(n / 16, 4) == Push(Digits(n / 32, 3), n / 16 % 2 == 1);
    assert Digits(n / 8, 5) == Push(Digits(n / 16, 4), n / 8 % 2 == 1);
    assert Digits(n / 4, 6) == Push(Digits(n / 8, 5), n / 4 % 2 == 1);
    assert Digits(n / 2, 7) == Push(Digits(n / 4, 6), n / 2 % 2 == 1);
  }

  lemma SameBits(v: bv8, w: bv8, n: uint8)
    requires BitsAgree(v, n) && BitsAgree(w, n)
    ensures v == w
  {
  }

  /** The eight digits of a byte are the byte as a bit vector. */
  lemma DigitsAreBits(n: uint8)
    ensures Digits(n, BYTE_BITS) == n as bv8
  {
    hide Pushed, Digits;
    CastAgrees(n);
    DigitsPushed(n);
    PushedBits(n % 2 == 1, n / 2 % 2 == 1, n / 4 % 2 == 1, n / 8 % 2 == 1,
               n / 16 % 2 == 1, n / 32 % 2 == 1, n / 64 % 2 == 1, n / 128 % 2 == 1);
    SameBits(n as bv8, Digits(n, BYTE_BITS), n);
  }

  lemma PushInjective(a: bv8, x: bool, b: bv8, y: bool)
    requires a < 0x80 && b < 0x80 && Push(a, x) == Push(b, y)
    ensures a == b && x == y
  {
  }

  lemma PushFits(a: bv8, x: bool, n: nat)
    requires n < BYTE_BITS - 1 && a < 1 << n
    ensures Push(a, x) < 1 << (n + 1)
  {
  }

  lemma {:induction false} DigitsFit(x: nat, n: nat)
    requires n < BYTE_BITS
    ensures Digits(x, n) < 1 << n
    decreases n
  {
    if n == 0 {
    } else {
      DigitsFit(x / 2, n - 1);
      PushFits(Digits(x / 2, n - 1), x % 2 == 1, n - 1);
    }
  }

  lemma TopBitClear(a: bv8, n: nat)
    requires n < BYTE_BITS && a < 1 << n
    ensures a < 0x80
  {
  }

  lemma {:induction false} DigitsInjective(x: nat, y: nat, n: nat)
    requires n <= BYTE_BITS && x < Pow2(n) && y < Pow2(n) && Digits(x, n) == Digits(y, n)
    ensures x == y
    decreases n
  {
    if n == 0 {
    } else {
      hide Push;
      DigitsFit(x / 2, n - 1);
      DigitsFit(y / 2, n - 1);
      TopBitClear(Digits(x / 2, n - 1), n - 1);
      TopBitClear(Digits(y / 2, n - 1), n - 1);
      PushInjective(Digits(x / 2, n - 1), x % 2 == 1, Digits(y / 2, n - 1), y % 2 == 1);
      DigitsInjective(x / 2, y / 2, n - 1);
    }
  }

  lemma BytePower()
    ensures Pow2(BYTE_BITS) == 0x100
  {
    assert Pow2(4) == 16;
  }

  lemma BitsConcat(s: seq<uint8>, t: seq<uint8>)
    ensures Bits(s + t) == Bits(s) + Bits(t)
  {
  }

  lemma BitsInjective(s: seq<uint8>, t: seq<uint8>)
    requires Bits(s) == Bits(t)
    ensures s == t
  {
    forall i | 0 <= i < |s| ensures s[i] == t[i] {
      assert Bits(s)[i] == Bits(t)[i];
      BytePower();
      DigitsInjective(s[i], t[i], BYTE_BITS);
    }
  }

  // The two implementations.

  lemma {:induction false} RegisterConcat(c: bv32, s: seq<bv8>, t: seq<bv8>)
    ensures Register(c, s + t) == Register(Register(c, s), t)
    decreases |s|
  {
    hide ByteStep;
    if s == [] {
      assert s + t == t;
    } else {
      assert (s + t)[1..] == s[1..] + t;
      RegisterConcat(ByteStep(c, s[0]), s[1..], t);
    }
  }

  lemma {:induction false} BitStepsSnoc(c: bv32, n: nat)
    ensures BitSteps(c, n + 1) == BitStep(BitSteps(c, n))
    decreases n
  {
    hide BitStep;
    if n == 0 {
    } else {
      BitStepsSnoc(BitStep(c), n - 1);
    }
  }

  lemma NextByte(d: seq<bv8>, k: nat)
    requires k < |d|
    ensures Register(INITIAL, d[..k + 1]) == ByteStep(Register(INITIAL, d[..k]), d[k])
  {
    hide ByteStep;
    var c, s, b := Register(INITIAL, d[..k]), d[..k], d[k];
    assert d[..k + 1] == s + [b];
    RegisterConcat(INITIAL, s, [b]);
    assert Register(c, [b]) == Register(ByteStep(c, b), [b][1..]);
  }

  /** The cartridge loader's bit update: a mask made by subtracting the low bit from zero. */
  method MaskedBit(c: bv32) returns (r: bv32)
    ensures r == BitStep(c)
  {
    r := (c >> 1) ^ (POLYNOMIAL & (0 - (c & 1)));
  }

  lemma NoSteps(c: bv32)
    ensures BitSteps(c, 0) == c
  {
  }

  method CartridgeCrc32(d: seq<bv8>) returns (crc: uint32)
    ensures crc == Checksum(d)
  {
    hide BitStep, BitSteps, Xor, Wide, Complement;
    var c := INITIAL;
    for k := 0 to |d|
      invariant c == Register(INITIAL, d[..k])
    {
      ghost var before := Xor(c, Wide(d[k]));
      c := Xor(c, Wide(d[k]));
      NoSteps(before);
      for i := 0 to 8
        invariant c == BitSteps(before, i)
      {
        BitStepsSnoc(before, i);
        c := MaskedBit(c);
      }
      NextByte(d, k);
    }
    assert d[..|d|] == d;
    return Complement(c);
  }

  /** The protocol server's bit update: the low bit negated as a signed integer and converted back. */
  method NegatedBit(c: bv32) returns (r: bv32)
    ensures r == BitStep(c)
  {
    var negated: int := if c & 1 == 1 then -1 else 0;
    var mask: bv32 := if negated < 0 then 0xffff_ffff else 0;
    r := (c >> 1) ^ (POLYNOMIAL & mask);
  }

  method ProtocolCrc32(bytes: seq<bv8>) returns (crc: uint32)
    ensures crc == Checksum(bytes)
  {
    hide BitStep, BitSteps, Xor, Wide, Complement;
    crc := 0;
    var c := INITIAL;
    for k := 0 to |bytes|
      invariant c == Register(INITIAL, bytes[..k])
    {
      ghost var before := Xor(c, Wide(bytes[k]));
      c := Xor(c, Wide(bytes[k]));
      NoSteps(before);
      for bit := 0 to 8
        invariant c == BitSteps(before, bit)
      {
        BitStepsSnoc(before, bit);
        c := NegatedBit(c);
      }
      NextByte(bytes, k);
    }
    assert bytes[..|bytes|] == bytes;
    crc := Complement(c);
  }

  // Error detection.

  function BitUnstep(c: bv32): bv32 {
    if c & 0x8000_0000 != 0 then ((c ^ POLYNOMIAL) << 1) | 1 else c << 1
  }

  /** The bit step loses nothing: on 32-bit registers it is a bijection. */
  lemma StepThenUnstep(c: bv32)
    ensures BitUnstep(BitStep(c)) == c
  {
  }

  lemma {:induction false} BitStepsInjective(a: bv32, b: bv32, n: nat)
    requires BitSteps(a, n) == BitSteps(b, n)
    ensures a == b
    decreases n
  {
    hide BitStep, BitUnstep;
    if n == 0 {
    } else {
      BitStepsInjective(BitStep(a), BitStep(b), n - 1);
      StepThenUnstep(a);
      StepThenUnstep(b);
    }
  }

  lemma XorCancels(a: bv32, b: bv32, x: bv32)
    ensures Xor(a, x) == Xor(b, x) ==> a == b
    ensures Xor(a, x) == Xor(x, a)
  {
  }

  // The same register, one bit at a time.

  function Digit(b: bool): bv32 {
    if b then 1 else 0
  }

  /** The register after the bits of `w`, each added as it arrives. */
  function Shifted(c: bv32, w: seq<bool>): bv32
    decreases |w|
  {
    if w == [] then c else Shifted(BitStep(Xor(c, Digit(w[0]))), w[1..])
  }

  /** The low `n` bits of `x`, least significant first: the order in which a byte is sent. */
  function LowBits(x: bv32, n: nat): (w: seq<bool>)
    ensures |w| == n
    decreases n
  {
    if n == 0 then [] else [x & 1 == 1] + LowBits(Half(x), n - 1)
  }

  function Stream(s: seq<bv8>): (w: seq<bool>)
    ensures |w| == BYTE_BITS * |s|
    decreases |s|
  {
    if s == [] then [] else LowBits(Wide(s[0]), BYTE_BITS) + Stream(s[1..])
  }

  /** Up to 32 bits as one word, the first bit lowest. */
  function Packed(w: seq<bool>): bv32
    decreases |w|
  {
    if w == [] then 0 else Joined(w[0], Packed(w[1..]))
  }

  function Up(x: bv32): bv32 {
    x << 1
  }

  function Joined(b: bool, x: bv32): bv32 {
    Xor(Digit(b), Up(x))
  }

  /** `x` has at most n bits. */
  predicate Spans(x: bv32, n: nat) {
    n < 32 ==> x < 1 << n
  }

  predicate Low(x: bv32) {
    x < 0x8000_0000
  }

  lemma StepPassesShifted(c: bv32, x: bv32)
    requires Low(x)
    ensures BitStep(Xor(c, Up(x))) == Xor(BitStep(c), x)
  {
    hide Xor, Up, Half, Feedback, Low;
    ShiftedBits(c, x);
    SwapXor(Half(c), x, Feedback(c));
  }

  lemma ShiftedBits(c: bv32, x: bv32)
    requires Low(x)
    ensures Feedback(Xor(c, Up(x))) == Feedback(c) && Half(Xor(c, Up(x))) == Xor(Half(c), x)
  {
  }

  lemma SwapXor(a: bv32, b: bv32, c: bv32)
    ensures Xor(Xor(a, b), c) == Xor(Xor(a, c), b)
  {
    hide Xor;
    XorAssociates(a, b, c);
    XorAssociates(a, c, b);
    XorCancels(b, b, c);
  }

  lemma XorAssociates(a: bv32, b: bv32, c: bv32)
    ensures Xor(Xor(a, b), c) == Xor(a, Xor(b, c))
    ensures Xor(a, 0) == a
  {
  }

  lemma JoinSpans(b: bool, x: bv32, n: nat)
    requires n < 31 && Spans(x, n)
    ensures Spans(Joined(b, x), n + 1)
  {
  }

  lemma SpansLow(x: bv32, n: nat)
    requires n < 32 && Spans(x, n)
    ensures Low(x)
  {
  }

  lemma HalfOfUp(x: bv32)
    requires Low(x)
    ensures Half(Up(x)) == x && Half(Xor(1, Up(x))) == x
  {
  }

  lemma LowestBit(x: bv32)
    ensures Up(x) & 1 == 0 && Xor(1, Up(x)) & 1 == 1 && Xor(0, Up(x)) == Up(x)
  {
  }

  lemma JoinedParts(b: bool, x: bv32)
    requires Low(x)
    ensures Half(Joined(b, x)) == x && (Joined(b, x) & 1 == 1 <==> b)
  {
    hide Xor, Up, Half, Low;
    HalfOfUp(x);
    LowestBit(x);
  }

  lemma PartsJoined(x: bv32)
    ensures Joined(x & 1 == 1, Half(x)) == x
  {
  }

  lemma HalfSpans(x: bv32, n: nat)
    requires 0 < n <= 32 && Spans(x, n)
    ensures Spans(Half(x), n - 1)
  {
    hide Half;
    PowerOfTwo(n - 1);
    HalfLess(x, (1 as bv32) << (n - 1));
  }

  lemma PowerOfTwo(n: nat)
    requires n < 32
    ensures n < 31 ==> (1 as bv32) << (n + 1) == ((1 as bv32) << n) << 1 && (1 as bv32) << n < 0x8000_0000
    ensures n == 31 ==> (1 as bv32) << n == 0x8000_0000
  {
  }

  lemma HalfLess(x: bv32, y: bv32)
    ensures y < 0x8000_0000 && x < y << 1 ==> Half(x) < y
    ensures y == 0x8000_0000 ==> Half(x) < y
  {
  }

  lemma {:induction false} PackedSpans(w: seq<bool>)
    requires |w| <= 32
    ensures Spans(Packed(w), |w|)
    decreases |w|
  {
    hide Joined;
    if w == [] || |w| == 32 {
    } else {
      PackedSpans(w[1..]);
      JoinSpans(w[0], Packed(w[1..]), |w| - 1);
    }
  }

  /** The bits of a word, packed again, are the word. */
  lemma {:induction false} PackedLowBits(x: bv32, n: nat)
    requires n <= 32 && Spans(x, n)
    ensures Packed(LowBits(x, n)) == x
    decreases n
  {
    hide Joined, Half;
    if n == 0 {
    } else {
      HalfSpans(x, n);
      PackedLowBits(Half(x), n - 1);
      PartsJoined(x);
      assert LowBits(x, n)[1..] == LowBits(Half(x), n - 1);
    }
  }

  lemma {:induction false} PackedInjective(w: seq<bool>, v: seq<bool>)
    requires |w| == |v| <= 32 && Packed(w) == Packed(v)
    ensures w == v
    decreases |w|
  {
    hide Joined, Half, Spans, Low;
    if w == [] {
    } else {
      PackedSpans(w[1..]);
      PackedSpans(v[1..]);
      SpansLow(Packed(w[1..]), |w| - 1);
      SpansLow(Packed(v[1..]), |v| - 1);
      JoinedParts(w[0], Packed(w[1..]));
      JoinedParts(v[0], Packed(v[1..]));
      PackedInjective(w[1..], v[1..]);
      assert w == [w[0]] + w[1..] && v == [v[0]] + v[1..];
    }
  }

  /** Up to 32 bits fed in one by one are one XOR with the packed word followed by plain bit steps. */
  lemma {:induction false} BurstIsOneXor(c: bv32, w: seq<bool>)
    requires |w| <= 32
    ensures Shifted(c, w) == BitSteps(Xor(c, Packed(w)), |w|)
    decreases |w|
  {
    hide BitStep, Xor, Up, Digit, Spans, Low;
    if w == [] {
      XorAssociates(c, 0, 0);
    } else {
      var b, x := Digit(w[0]), Packed(w[1..]);
      PackedSpans(w[1..]);
      SpansLow(x, |w| - 1);
      BurstIsOneXor(BitStep(Xor(c, b)), w[1..]);
      StepPassesShifted(Xor(c, b), x);
      XorAssociates(c, b, Up(x));
    }
  }

  lemma {:induction false} ShiftedConcat(c: bv32, w: seq<bool>, v: seq<bool>)
    ensures Shifted(c, w + v) == Shifted(Shifted(c, w), v)
    decreases |w|
  {
    hide BitStep, Xor, Digit;
    if w == [] {
      assert w + v == v;
    } else {
      ShiftedConcat(BitStep(Xor(c, Digit(w[0]))), w[1..], v);
      assert (w + v)[1..] == w[1..] + v;
    }
  }

  lemma {:induction false} ShiftedInjective(a: bv32, b: bv32, w: seq<bool>)
    requires Shifted(a, w) == Shifted(b, w)
    ensures a == b
    decreases |w|
  {
    hide BitStep, Xor, Digit;
    if w == [] {
    } else {
      var d := Digit(w[0]);
      ShiftedInjective(BitStep(Xor(a, d)), BitStep(Xor(b, d)), w[1..]);
      StepThenUnstep(Xor(a, d));
      StepThenUnstep(Xor(b, d));
      XorCancels(a, b, d);
    }
  }

  lemma ByteSpans(b: bv8)
    ensures Spans(Wide(b), BYTE_BITS)
  {
  }

  /** A byte step is its eight bits fed in one by one. */
  lemma ByteStepIsBits(c: bv32, b: bv8)
    ensures ByteStep(c, b) == Shifted(c, LowBits(Wide(b), BYTE_BITS))
  {
    hide BitSteps, Xor, Wide, LowBits, Shifted, Packed, Spans;
    ByteSpans(b);
    PackedLowBits(Wide(b), BYTE_BITS);
    BurstIsOneXor(c, LowBits(Wide(b), BYTE_BITS));
  }

  /** The register depends only on the bits sent, in order. */
  lemma {:induction false} RegisterIsBits(c: bv32, s: seq<bv8>)
    ensures Register(c, s) == Shifted(c, Stream(s))
    decreases |s|
  {
    hide ByteStep, LowBits, Wide;
    if s == [] {
    } else {
      ByteStepIsBits(c, s[0]);
      RegisterIsBits(ByteStep(c, s[0]), s[1..]);
      ShiftedConcat(c, LowBits(Wide(s[0]), BYTE_BITS), Stream(s[1..]));
    }
  }

  lemma ValueInjective(a: bv32, b: bv32)
    requires a as int == b as int
    ensures a == b
  {
    var n := a as int;
    assert a == n as bv32;
    assert b == n as bv32;
  }

  lemma ComplementInjective(a: bv32, b: bv32)
    requires Complement(a) == Complement(b)
    ensures a == b
  {
    ValueInjective(Flipped(a), Flipped(b));
  }

  /** Different bit strings of one length that agree outside 32 consecutive bits. */
  predicate Burst(w: seq<bool>, v: seq<bool>, at: nat) {
    && |w| == |v| && w != v
    && forall k | 0 <= k < |w| && !(at <= k < at + 32) :: w[k] == v[k]
  }

  lemma BurstParts(w: seq<bool>, v: seq<bool>, at: nat) returns (i: nat, j: nat)
    requires Burst(w, v, at)
    ensures i <= j <= |w| == |v| && j - i <= 32
    ensures w[..i] == v[..i] && w[i..j] != v[i..j] && w[j..] == v[j..]
  {
    i := Min(at, |w|);
    j := Min(at + 32, |w|);
    assert w == w[..i] + w[i..j] + w[j..] && v == v[..i] + v[i..j] + v[j..];
  }

  /** Registers that agree before a short burst agree after it only if the bits are the same. */
  lemma WindowInjective(c: bv32, w: seq<bool>, v: seq<bool>)
    requires |w| == |v| <= 32 && Shifted(c, w) == Shifted(c, v)
    ensures w == v
  {
    hide Shifted, BitSteps, Packed, Xor;
    BurstIsOneXor(c, w);
    BurstIsOneXor(c, v);
    BitStepsInjective(Xor(c, Packed(w)), Xor(c, Packed(v)), |w|);
    XorCancels(Packed(w), Packed(v), c);
    XorCancels(Packed(v), Packed(w), c);
    PackedInjective(w, v);
  }

  /** Every burst of up to 32 bits is detected, wherever it starts and whatever bytes it straddles. */
  lemma BurstDetected(s: seq<bv8>, t: seq<bv8>, at: nat)
    requires Burst(Stream(s), Stream(t), at)
    ensures Checksum(s) != Checksum(t)
  {
    hide Register, Complement, Shifted, Stream, Burst;
    if Checksum(s) == Checksum(t) {
      var w, v := Stream(s), Stream(t);
      var i, j := BurstParts(w, v, at);
      ComplementInjective(Register(INITIAL, s), Register(INITIAL, t));
      RegisterIsBits(INITIAL, s);
      RegisterIsBits(INITIAL, t);
      ShiftedInThree(INITIAL, w, i, j);
      ShiftedInThree(INITIAL, v, i, j);
      var c := Shifted(INITIAL, w[..i]);
      ShiftedInjective(Shifted(c, w[i..j]), Shifted(c, v[i..j]), w[j..]);
      WindowInjective(c, w[i..j], v[i..j]);
    }
  }

  lemma ShiftedInThree(c: bv32, w: seq<bool>, i: nat, j: nat)
    requires i <= j <= |w|
    ensures Shifted(c, w) == Shifted(Shifted(Shifted(c, w[..i]), w[i..j]), w[j..])
  {
    hide Shifted;
    ShiftedConcat(c, w[..i], w[i..j]);
    ShiftedConcat(c, w[..j], w[j..]);
    assert w[..i] + w[i..j] == w[..j] && w[..j] + w[j..] == w;
  }

  lemma {:induction false} StreamConcat(s: seq<bv8>, t: seq<bv8>)
    ensures Stream(s + t) == Stream(s) + Stream(t)
    decreases |s|
  {
    hide LowBits, Wide;
    if s == [] {
      assert s + t == t;
    } else {
      StreamConcat(s[1..], t);
      assert (s + t)[1..] == s[1..] + t;
    }
  }

  lemma WideInjective(a: bv8, b: bv8)
    requires Wide(a) == Wide(b)
    ensures a == b
  {
  }

  lemma {:induction false} StreamInjective(s: seq<bv8>, t: seq<bv8>)
    requires |s| == |t| && Stream(s) == Stream(t)
    ensures s == t
    decreases |s|
  {
    hide LowBits, Wide, Packed, Spans;
    if s == [] {
    } else {
      assert Stream(s)[..BYTE_BITS] == LowBits(Wide(s[0]), BYTE_BITS) && Stream(s)[BYTE_BITS..] == Stream(s[1..]);
      assert Stream(t)[..BYTE_BITS] == LowBits(Wide(t[0]), BYTE_BITS) && Stream(t)[BYTE_BITS..] == Stream(t[1..]);
      ByteSpans(s[0]);
      ByteSpans(t[0]);
      PackedLowBits(Wide(s[0]), BYTE_BITS);
      PackedLowBits(Wide(t[0]), BYTE_BITS);
      WideInjective(s[0], t[0]);
      StreamInjective(s[1..], t[1..]);
      assert s == [s[0]] + s[1..] && t == [t[0]] + t[1..];
    }
  }

  /** Damage inside four consecutive bytes is one such burst. */
  lemma WindowIsBurst(p: seq<bv8>, w: seq<bv8>, v: seq<bv8>, q: seq<bv8>)
    requires |w| == |v| <= 4 && w != v
    ensures Burst(Stream(p + w + q), Stream(p + v + q), |Stream(p)|)
  {
    hide Stream;
    if Stream(w) == Stream(v) { StreamInjective(w, v); }
    StreamConcat(p + w, q);
    StreamConcat(p, w);
    StreamConcat(p + v, q);
    StreamConcat(p, v);
    BurstInside(Stream(p), Stream(w), Stream(v), Stream(q));
  }

  lemma LocalDamageDetected(p: seq<bv8>, w: seq<bv8>, v: seq<bv8>, q: seq<bv8>)
    requires |w| == |v| <= 4 && w != v
    ensures Checksum(p + w + q) != Checksum(p + v + q)
  {
    hide Stream, Checksum;
    WindowIsBurst(p, w, v, q);
    BurstDetected(p + w + q, p + v + q, |Stream(p)|);
  }

  lemma BurstInside(p: seq<bool>, w: seq<bool>, v: seq<bool>, q: seq<bool>)
    requires |w| == |v| <= 32 && w != v
    ensures Burst(p + w + q, p + v + q, |p|)
  {
    var a, b := p + w + q, p + v + q;
    assert a[|p|..|p| + |w|] == w && b[|p|..|p| + |v|] == v;
  }

  // The reference behaviour of this CRC.

  /** The steps of one byte, written out. */
  function EightSteps(c: bv32): bv32 {
    BitStep(BitStep(BitStep(BitStep(BitStep(BitStep(BitStep(BitStep(c))))))))
  }

  lemma EightStepsIs(c: bv32)
    ensures BitSteps(c, 8) == EightSteps(c)
  {
    hide BitStep;
  }

  lemma RegisterStep(c: bv32, s: seq<bv8>, d: bv32)
    requires s != [] && d == EightSteps(Xor(c, Wide(s[0])))
    ensures Register(c, s) == Register(d, s[1..])
  {
    hide BitStep, EightSteps, Xor, Wide;
    EightStepsIs(Xor(c, Wide(s[0])));
  }

  lemma CheckDigits1()
    ensures EightSteps(Xor(0xffff_ffff, Wide(0x31))) == 0x7c23_1048
    ensures EightSteps(Xor(0x7c23_1048, Wide(0x32))) == 0xb0ac_bb32
    ensures EightSteps(Xor(0xb0ac_bb32, Wide(0x33))) == 0x77b7_9c2d
  {
  }

  lemma CheckDigits4()
    ensures EightSteps(Xor(0x77b7_9c2d, Wide(0x34))) == 0x641c_1f5c
    ensures EightSteps(Xor(0x641c_1f5c, Wide(0x35))) == 0x340a_c5e3
    ensures EightSteps(Xor(0x340a_c5e3, Wide(0x36))) == 0xf68d_2c9e
  {
  }

  lemma CheckDigits7()
    ensures EightSteps(Xor(0xf68d_2c9e, Wide(0x37))) == 0xaffc_9660
    ensures EightSteps(Xor(0xaffc_9660, Wide(0x38))) == 0x651f_2550
    ensures EightSteps(Xor(0x651f_2550, Wide(0x39))) == 0x340b_c6d9
  {
  }

  lemma CheckPart1(s: seq<bv8>)
    requires |s| >= 3 && s[0] == 0x31 && s[1] == 0x32 && s[2] == 0x33
    ensures Register(0xffff_ffff, s) == Register(0x77b7_9c2d, s[3..])
  {
    hide EightSteps, Register, Wide, Xor;
    CheckDigits1();
    RegisterStep(0xffff_ffff, s, 0x7c23_1048);
    RegisterStep(0x7c23_1048, s[1..], 0xb0ac_bb32);
    RegisterStep(0xb0ac_bb32, s[1..][1..], 0x77b7_9c2d);
    assert s[1..][1..][1..] == s[3..];
  }

  lemma CheckPart4(s: seq<bv8>)
    requires |s| >= 3 && s[0] == 0x34 && s[1] == 0x35 && s[2] == 0x36
    ensures Register(0x77b7_9c2d, s) == Register(0xf68d_2c9e, s[3..])
  {
    hide EightSteps, Register, Wide, Xor;
    CheckDigits4();
    RegisterStep(0x77b7_9c2d, s, 0x641c_1f5c);
    RegisterStep(0x641c_1f5c, s[1..], 0x340a_c5e3);
    RegisterStep(0x340a_c5e3, s[1..][1..], 0xf68d_2c9e);
    assert s[1..][1..][1..] == s[3..];
  }

  lemma CheckPart7(s: seq<bv8>)
    requires |s| >= 3 && s[0] == 0x37 && s[1] == 0x38 && s[2] == 0x39
    ensures Register(0xf68d_2c9e, s) == Register(0x340b_c6d9, s[3..])
  {
    hide EightSteps, Register, Wide, Xor;
    CheckDigits7();
    RegisterStep(0xf68d_2c9e, s, 0xaffc_9660);
    RegisterStep(0xaffc_9660, s[1..], 0x651f_2550);
    RegisterStep(0x651f_2550, s[1..][1..], 0x340b_c6d9);
    assert s[1..][1..][1..] == s[3..];
  }

  /** The check value of the standard: the checksum of the digits 1 to 9. */
  lemma CheckValue()
    ensures Checksum(Bits([0x31, 0x32, 0x33, 0x34, 0x35, 0x36, 0x37, 0x38, 0x39])) == 0xcbf4_3926
  {
    hide Register, Complement, Bits;
    var s := Bits([0x31, 0x32, 0x33, 0x34, 0x35, 0x36, 0x37, 0x38, 0x39]);
    DigitBytes();
    CheckPart1(s);
    CheckPart4(s[3..]);
    CheckPart7(s[3..][3..]);
    NothingLeft(0x340b_c6d9, s[3..][3..][3..]);
    CheckComplement();
  }

  lemma DigitBytes()
    ensures Bits([0x31, 0x32, 0x33, 0x34, 0x35, 0x36, 0x37, 0x38, 0x39])
            == [0x31, 0x32, 0x33, 0x34, 0x35, 0x36, 0x37, 0x38, 0x39]
  {
    hide Digits;
    forall n: uint8 ensures Digits(n, BYTE_BITS) == n as bv8 { DigitsAreBits(n); }
  }

  lemma NothingLeft(c: bv32, s: seq<bv8>)
    requires s == []
    ensures Register(c, s) == c
  {
  }

  lemma CheckComplement()
    ensures Complement(0x340b_c6d9) == 0xcbf4_3926
  {
  }

  /** The four bytes of a register, least significant first. */
  function LittleEndian(c: bv32): (s: seq<bv8>)
    ensures |s| == 4
  {
    [Low8(c), Low8(Down8(c)), Low8(Down8(Down8(c))), Low8(Down8(Down8(Down8(c))))]
  }

  function Low8(c: bv32): bv8 {
    (c & 0xff) as bv8
  }

  function Down8(c: bv32): bv32 {
    c >> 8
  }

  /** Bits that the steps of one byte do not reach are only moved down by them. */
  lemma EightPass(c: bv32, x: bv32)
    requires x < 0x100_0000
    ensures EightSteps(Xor(c, Up(Up(Up(Up(Up(Up(Up(Up(x))))))))))
            == Xor(EightSteps(c), x)
  {
    hide BitStep, Up, Xor, Low;
    var x1 := Up(x);
    var x2 := Up(x1);
    var x3 := Up(x2);
    var x4 := Up(x3);
    var x5 := Up(x4);
    var x6 := Up(x5);
    var x7 := Up(x6);
    AllLow(x);
    var c1 := BitStep(c);
    var c2 := BitStep(c1);
    var c3 := BitStep(c2);
    var c4 := BitStep(c3);
    var c5 := BitStep(c4);
    var c6 := BitStep(c5);
    var c7 := BitStep(c6);
    StepPassesShifted(c, x7);
    StepPassesShifted(c1, x6);
    StepPassesShifted(c2, x5);
    StepPassesShifted(c3, x4);
    StepPassesShifted(c4, x3);
    StepPassesShifted(c5, x2);
    StepPassesShifted(c6, x1);
    StepPassesShifted(c7, x);
  }

  lemma AllLow(x: bv32)
    requires x < 0x100_0000
    ensures Low(x) && Low(Up(x)) && Low(Up(Up(x))) && Low(Up(Up(Up(x)))) && Low(Up(Up(Up(Up(x)))))
    ensures Low(Up(Up(Up(Up(Up(x)))))) && Low(Up(Up(Up(Up(Up(Up(x)))))))
    ensures Low(Up(Up(Up(Up(Up(Up(Up(x))))))))
  {
  }

  /** The higher bytes of a word go through the steps of its lowest byte unchanged. */
  lemma PassThrough(c: bv32, w: bv32)
    ensures EightSteps(Xor(c, w)) == Xor(EightSteps(Xor(c, Wide(Low8(w)))), Down8(w))
  {
    hide EightSteps, Xor, Up, Wide, Low8, Down8;
    DownFits(w);
    EightPass(Xor(c, Wide(Low8(w))), Down8(w));
    XorAssociates(c, Wide(Low8(w)), Up(Up(Up(Up(Up(Up(Up(Up(Down8(w))))))))));
    BytePlusRest(w);
  }

  lemma DownFits(w: bv32)
    ensures Down8(w) < 0x100_0000
  {
  }

  lemma BytePlusRest(w: bv32)
    ensures Xor(Wide(Low8(w)), Up(Up(Up(Up(Up(Up(Up(Up(Down8(w)))))))))) == w
  {
  }

  /** The register after four more bytes, in terms of the whole word they make. */
  lemma FourBytes(c: bv32, w: bv32)
    ensures Register(c, LittleEndian(w)) == EightSteps(EightSteps(EightSteps(EightSteps(Xor(c, w)))))
  {
    hide EightSteps, Xor, Register, Low8, Wide, Down8;
    var s, w1 := LittleEndian(w), Down8(w);
    var w2 := Down8(w1);
    var w3 := Down8(w2);
    var r1 := EightSteps(Xor(c, Wide(Low8(w))));
    var r2 := EightSteps(Xor(r1, Wide(Low8(w1))));
    var r3 := EightSteps(Xor(r2, Wide(Low8(w2))));
    var r4 := EightSteps(Xor(r3, Wide(Low8(w3))));
    RegisterStep(c, s, r1);
    RegisterStep(r1, s[1..], r2);
    RegisterStep(r2, s[1..][1..], r3);
    RegisterStep(r3, s[1..][1..][1..], r4);
    NothingLeft(r4, s[1..][1..][1..][1..]);
    PassThrough(c, w);
    PassThrough(r1, w1);
    PassThrough(r2, w2);
    PassThrough(r3, w3);
    ShiftsOut(w, r4);
  }

  lemma ShiftsOut(w: bv32, r: bv32)
    ensures Xor(r, Down8(Down8(Down8(Down8(w))))) == r
  {
  }

  /**
   * Anything followed by its own checksum, least significant byte first, has the same checksum: the residue of the
   * standard.
   */
  lemma Residue(s: seq<bv8>)
    ensures Checksum(s + LittleEndian(Flipped(Register(INITIAL, s)))) == 0x2144_df1c
  {
    hide EightSteps, Register, Complement, LittleEndian, Xor, Flipped;
    var c := Register(INITIAL, s);
    RegisterConcat(INITIAL, s, LittleEndian(Flipped(c)));
    FourBytes(c, Flipped(c));
    XorOwnComplement(c);
    ResidueSteps();
    ResidueComplement();
  }

  lemma XorOwnComplement(c: bv32)
    ensures Xor(c, Flipped(c)) == 0xffff_ffff
  {
  }

  lemma ResidueSteps()
    ensures EightSteps(0xffff_ffff) == 0x2dfd_1072 && EightSteps(0x2dfd_1072) == 0xbe26_ed00
    ensures EightSteps(0xbe26_ed00) == 0x00be_26ed && EightSteps(0x00be_26ed) == 0xdebb_20e3
  {
  }

  lemma ResidueComplement()
    ensures Complement(0xdebb_20e3) == 0x2144_df1c
  {
  }
}
