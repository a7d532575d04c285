/** The compressed instructions: the ISA's listing of what each expands to, and the interpreter's exceptions. */
module Rvc {
  import opened Isa

  /** Instruction bit `from` as immediate bit `to`: one column of an RVC format. */
  function Bit(c: bv32, from: bv5, to: bv5): bv32 {
    ((c >> from) & 1) << to
  }

  // Immediates, column by column as in sections 16.3 to 16.5 of the unprivileged ISA.
  function ImmAddi4spn(c: bv32): bv32 {
    Bit(c, 12, 5) | Bit(c, 11, 4) | Bit(c, 10, 9) | Bit(c, 9, 8) | Bit(c, 8, 7) | Bit(c, 7, 6) | Bit(c, 6, 2) | Bit(c, 5, 3)
  }

  function ImmLw(c: bv32): bv32 {
    Bit(c, 12, 5) | Bit(c, 11, 4) | Bit(c, 10, 3) | Bit(c, 6, 2) | Bit(c, 5, 6)
  }

  function Imm6(c: bv32): bv32 {
    Bit(c, 12, 5) | Bit(c, 6, 4) | Bit(c, 5, 3) | Bit(c, 4, 2) | Bit(c, 3, 1) | Bit(c, 2, 0)
  }

  function ImmJump(c: bv32): bv32 {
    Sext(Bit(c, 12, 11) | Bit(c, 11, 4) | Bit(c, 10, 9) | Bit(c, 9, 8) | Bit(c, 8, 10) | Bit(c, 7, 6) | Bit(c, 6, 7)
         | Bit(c, 5, 3) | Bit(c, 4, 2) | Bit(c, 3, 1) | Bit(c, 2, 5), 0x800)
  }

  function ImmBranch(c: bv32): bv32 {
    Sext(Bit(c, 12, 8) | Bit(c, 11, 4) | Bit(c, 10, 3) | Bit(c, 6, 7) | Bit(c, 5, 6) | Bit(c, 4, 2) | Bit(c, 3, 1)
         | Bit(c, 2, 5), 0x100)
  }

  function ImmAddi16sp(c: bv32): bv32 {
    Sext(Bit(c, 12, 9) | Bit(c, 6, 4) | Bit(c, 5, 6) | Bit(c, 4, 8) | Bit(c, 3, 7) | Bit(c, 2, 5), 0x200)
  }

  function ImmLwsp(c: bv32): bv32 {
    Bit(c, 12, 5) | Bit(c, 6, 4) | Bit(c, 5, 3) | Bit(c, 4, 2) | Bit(c, 3, 7) | Bit(c, 2, 6)
  }

  function ImmSwsp(c: bv32): bv32 {
    Bit(c, 12, 5) | Bit(c, 11, 4) | Bit(c, 10, 3) | Bit(c, 9, 2) | Bit(c, 8, 7) | Bit(c, 7, 6)
  }

  /** Full and three-bit register fields. */
  function RegHigh(c: bv32): Isa.Reg { ((c >> 7) & 31) as bv5 }
  function RegLow(c: bv32): Isa.Reg { ((c >> 2) & 31) as bv5 }
  function PrimeHigh(c: bv32): Isa.Reg { (8 + ((c >> 7) & 7)) as bv5 }
  function PrimeLow(c: bv32): Isa.Reg { (8 + ((c >> 2) & 7)) as bv5 }

  function Listing0(c: bv32): Instr {
    var f3 := c >> 13;
    if f3 == 0 then
      if ImmAddi4spn(c) == 0 then Illegal(IllegalAddi4spn) else OpImm(Add, PrimeLow(c), 2, ImmAddi4spn(c))
    else if f3 == 2 then Load(Word, true, PrimeLow(c), PrimeHigh(c), ImmLw(c))
    else if f3 == 6 then Store(Word, PrimeHigh(c), PrimeLow(c), ImmLw(c))
    else Illegal(UnsupportedC)
  }

  function ListingArithmetic(c: bv32): Instr {
    var d, sub, fn := PrimeHigh(c), (c >> 10) & 3, (c >> 5) & 3;
    if sub == 0 then OpImm(Srl, d, d, Imm6(c))
    else if sub == 1 then OpImm(Sra, d, d, Imm6(c))
    else if sub == 2 then OpImm(And, d, d, Sext(Imm6(c), 0x20))
    else if c & 0x1000 != 0 then Illegal(Rv64Only)
    else Op(if fn == 0 then Sub else if fn == 1 then Xor else if fn == 2 then Or else And, d, d, PrimeLow(c))
  }

  function Listing1(c: bv32): Instr {
    var f3, rd := c >> 13, RegHigh(c);
    if f3 == 0 then OpImm(Add, rd, rd, Sext(Imm6(c), 0x20))
    else if f3 == 1 then Jal(1, ImmJump(c))
    else if f3 == 2 then OpImm(Add, rd, 0, Sext(Imm6(c), 0x20))
    else if f3 == 3 then
      if rd == 2 then OpImm(Add, 2, 2, ImmAddi16sp(c)) else Lui(rd, Sext(Imm6(c), 0x20) << 12)
    else if f3 == 4 then ListingArithmetic(c)
    else if f3 == 5 then Jal(0, ImmJump(c))
    else Branch(if f3 == 6 then Eq else Ne, PrimeHigh(c), 0, ImmBranch(c))
  }

  function Listing2(c: bv32): Instr {
    var f3, rd, rs2 := c >> 13, RegHigh(c), RegLow(c);
    if f3 == 0 then OpImm(Sll, rd, rd, Imm6(c))
    else if f3 == 2 then Load(Word, true, rd, 2, ImmLwsp(c))
    else if f3 == 4 && c & 0x1000 == 0 then if rs2 == 0 then Jalr(0, rd, 0) else Op(Add, rd, 0, rs2)
    else if f3 == 4 then
      if rs2 != 0 then Op(Add, rd, rd, rs2) else if rd == 0 then Illegal(Breakpoint) else Jalr(1, rd, 0)
    else if f3 == 6 then Store(Word, 2, rs2, ImmSwsp(c))
    else Illegal(UnsupportedC)
  }

  /** Section 16.8: the base instruction that each integer compressed instruction stands for. */
  function Listing(c: bv32): Instr {
    if c & 3 == 0 then Listing0(c) else if c & 3 == 1 then Listing1(c) else Listing2(c)
  }

  /** A shift amount of 32 or more, which RV32C reserves and C++ leaves undefined. */
  predicate WideShift(i: Instr) {
    i.OpImm? && (i.op.Sll? || i.op.Srl? || i.op.Sra?) && i.imm >= 32
  }

  /** C.JALR x1: the one listing whose target register is also the link register. */
  predicate LinkClobbers(i: Instr) {
    i.Jalr? && i.rd == 1 && i.rs1 == 1
  }

  predicate IsParcel(c: bv32) {
    c < 0x1_0000 && c & 3 != 3
  }

  lemma UnsignedImmediatesFit(c: bv32)
    ensures Fits(ImmAddi4spn(c), 0x800) && Fits(ImmLw(c), 0x800)
    ensures Fits(ImmLwsp(c), 0x800) && Fits(ImmSwsp(c), 0x800)
  {
  }

  lemma SignedImmediatesFit(c: bv32)
    ensures Fits(Sext(Imm6(c), 0x20), 0x800) && (Sext(Imm6(c), 0x20) << 12) & 0xfff == 0
    ensures Fits(ImmAddi16sp(c), 0x800)
  {
  }

  lemma JumpImmediatesFit(c: bv32)
    ensures Fits(ImmJump(c), 0x10_0000) && ImmJump(c) & 1 == 0
    ensures Fits(ImmBranch(c), 0x1000) && ImmBranch(c) & 1 == 0
  {
  }

  predicate EncodableOrRefused(i: Instr) {
    i.Illegal? || WideShift(i) || Encodable(i)
  }

  lemma ListingEncodable0(c: bv32)
    ensures EncodableOrRefused(Listing0(c))
  {
    UnsignedImmediatesFit(c);
  }

  lemma ListingEncodableArithmetic(c: bv32)
    ensures EncodableOrRefused(ListingArithmetic(c))
  {
    SignedImmediatesFit(c);
  }

  lemma ListingEncodable1(c: bv32)
    ensures EncodableOrRefused(Listing1(c))
  {
    hide Sext, Imm6, ImmJump, ImmBranch, ImmAddi16sp, Fits, PrimeHigh, RegHigh, ListingArithmetic;
    SignedImmediatesFit(c);
    JumpImmediatesFit(c);
    ListingEncodableArithmetic(c);
  }

  lemma ListingEncodable2(c: bv32)
    ensures EncodableOrRefused(Listing2(c))
  {
    UnsignedImmediatesFit(c);
  }

  lemma ListingEncodable(c: bv32)
    ensures EncodableOrRefused(Listing(c))
  {
    ListingEncodable0(c);
    ListingEncodable1(c);
    ListingEncodable2(c);
  }
}
