/** Guest memory: what a store puts there a load of the same width gets back, sign included. */
module Memory {
  import opened Words
  import opened Isa
  import opened Semantics

  /** One past the largest value of this width. */
  function Range(width: Width): int {
    match width case Byte => 0x100 case Half => 0x1_0000 case Word => TWO32
  }

  lemma BytesStored(m: Machine, width: Width, a: uint32, v: uint32)
    requires Writable(m, width, a) && a + Bytes(width) <= TWO32
    ensures var m' := Stored(m, width, a, v);
      && ByteAt(m', a) == v % 0x100
      && (width != Byte ==> ByteAt(m', U32(a + 1)) == v / 0x100 % 0x100)
      && (width.Word? ==>
            ByteAt(m', U32(a + 2)) == v / 0x1_0000 % 0x100 && ByteAt(m', U32(U32(a + 2) + 1)) == v / 0x100_0000)
  {
  }

  lemma Mappings(m: Machine, width: Width, a: uint32, v: uint32)
    requires Writable(m, width, a) && a + Bytes(width) <= TWO32
    ensures Readable(Stored(m, width, a, v), width, a)
    ensures forall b: uint32 :: Mapped(Stored(m, width, a, v), b) <==> Mapped(m, b)
  {
  }

  lemma OtherBytes(m: Machine, width: Width, a: uint32, v: uint32)
    requires Writable(m, width, a)
    ensures forall b: uint32 | !(a <= b < a + Bytes(width)) :: ByteAt(Stored(m, width, a, v), b) == ByteAt(m, b)
  {
  }

  /**
   * A load gets back the low bytes stored at the same address: as they are when zero-extended, and as the signed
   * number of that width with the same low bytes when sign-extended. Every other byte is as it was. Only a store at the
   * very end of the address space, where a load would wrap, is left out.
   */
  lemma LoadAfterStore(m: Machine, width: Width, signed: bool, a: uint32, v: uint32)
    requires Writable(m, width, a) && a + Bytes(width) <= TWO32
    ensures Readable(Stored(m, width, a, v), width, a)
    ensures var r := Loaded(Stored(m, width, a, v), width, signed, a);
      && r % Range(width) == v % Range(width)
      && (if signed then -Range(width) <= 2 * Signed(r) < Range(width) else r < Range(width))
    ensures forall b: uint32 | !(a <= b < a + Bytes(width)) ::
      && (Mapped(Stored(m, width, a, v), b) <==> Mapped(m, b))
      && ByteAt(Stored(m, width, a, v), b) == ByteAt(m, b)
  {
    hide ByteAt, Mapped, Stored, Readable, Writable, Loaded, U32;
    WordOfParts(v);
    BytesStored(m, width, a, v);
    Mappings(m, width, a, v);
    OtherBytes(m, width, a, v);
    LoadedBytes(Stored(m, width, a, v), width, signed, a);
    LoadedInRange(Stored(m, width, a, v), width, signed, a);
  }

  /** The number a load's bytes make, least significant byte first. */
  function BytesAt(m: Machine, width: Width, a: uint32): int {
    match width
    case Byte => ByteAt(m, a)
    case Half => ByteAt(m, a) + 0x100 * ByteAt(m, U32(a + 1))
    case Word =>
      ByteAt(m, a) + 0x100 * ByteAt(m, U32(a + 1))
      + 0x1_0000 * ByteAt(m, U32(a + 2)) + 0x100_0000 * ByteAt(m, U32(U32(a + 2) + 1))
  }

  lemma LoadedBytes(m: Machine, width: Width, signed: bool, a: uint32)
    ensures Loaded(m, width, signed, a) % Range(width) == BytesAt(m, width, a)
  {
    hide ByteAt, U32;
    match width
    case Byte => ExtendedByte(ByteAt(m, a));
    case Half => ExtendedHalf(HalfAt(m, a));
    case Word => WholeWord(WordAt(m, a));
  }

  lemma ExtendedByte(v: uint8)
    ensures v % 0x100 == (TWO32 + v - 0x100) % 0x100 == v
  {
  }

  lemma ExtendedHalf(v: uint16)
    ensures v % 0x1_0000 == (TWO32 + v - 0x1_0000) % 0x1_0000 == v
  {
  }

  lemma WholeWord(v: uint32)
    ensures v % TWO32 == v
  {
  }

  lemma LoadedInRange(m: Machine, width: Width, signed: bool, a: uint32)
    ensures var r := Loaded(m, width, signed, a);
      if signed then -Range(width) <= 2 * Signed(r) < Range(width) else r < Range(width)
  {
    hide ByteAt, HalfAt, WordAt, U32;
  }

  lemma WordOfParts(v: uint32)
    ensures v % 0x100 + 0x100 * (v / 0x100 % 0x100) == v % 0x1_0000
    ensures v % 0x1_0000 + 0x1_0000 * (v / 0x1_0000 % 0x100) + 0x100_0000 * (v / 0x100_0000) == v
  {
  }
}
