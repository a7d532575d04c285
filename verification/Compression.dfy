/** The compressed encodings from the assembler's side: which instructions have one, and that it lists as them. */
module Compression {
  import opened Words
  import opened Isa
  import opened Rvc

  // Fields of the compressed formats, sections 16.2 to 16.5 of the unprivileged ISA.
  predicate Prime(r: Isa.Reg) {
    8 <= r < 16
  }

  function High(r: Isa.Reg): bv32 {
    (r as bv32) << 7
  }

  function Low(r: Isa.Reg): bv32 {
    (r as bv32) << 2
  }

  function HighPrime(r: Isa.Reg): bv32 {
    ((r as bv32) & 7) << 7
  }

  function LowPrime(r: Isa.Reg): bv32 {
    ((r as bv32) & 7) << 2
  }

  /** The immediate columns, from immediate bit to instruction bit. */
  function Columns6(imm: bv32): bv32 {
    Bit(imm, 5, 12) | Bit(imm, 4, 6) | Bit(imm, 3, 5) | Bit(imm, 2, 4) | Bit(imm, 1, 3) | Bit(imm, 0, 2)
  }

  function ColumnsAddi4spn(imm: bv32): bv32 {
    Bit(imm, 9, 10) | Bit(imm, 8, 9) | Bit(imm, 7, 8) | Bit(imm, 6, 7) | Bit(imm, 5, 12) | Bit(imm, 4, 11)
    | Bit(imm, 3, 5) | Bit(imm, 2, 6)
  }

  function ColumnsLw(imm: bv32): bv32 {
    Bit(imm, 6, 5) | Bit(imm, 5, 12) | Bit(imm, 4, 11) | Bit(imm, 3, 10) | Bit(imm, 2, 6)
  }

  function ColumnsJump(imm: bv32): bv32 {
    Bit(imm, 11, 12) | Bit(imm, 10, 8) | Bit(imm, 9, 10) | Bit(imm, 8, 9) | Bit(imm, 7, 6) | Bit(imm, 6, 7)
    | Bit(imm, 5, 2) | Bit(imm, 4, 11) | Bit(imm, 3, 5) | Bit(imm, 2, 4) | Bit(imm, 1, 3)
  }

  function ColumnsBranch(imm: bv32): bv32 {
    Bit(imm, 8, 12) | Bit(imm, 7, 6) | Bit(imm, 6, 5) | Bit(imm, 5, 2) | Bit(imm, 4, 11) | Bit(imm, 3, 10)
    | Bit(imm, 2, 4) | Bit(imm, 1, 3)
  }

  function ColumnsAddi16sp(imm: bv32): bv32 {
    Bit(imm, 9, 12) | Bit(imm, 8, 4) | Bit(imm, 7, 3) | Bit(imm, 6, 5) | Bit(imm, 5, 2) | Bit(imm, 4, 6)
  }

  function ColumnsLwsp(imm: bv32): bv32 {
    Bit(imm, 7, 3) | Bit(imm, 6, 2) | Bit(imm, 5, 12) | Bit(imm, 4, 6) | Bit(imm, 3, 5) | Bit(imm, 2, 4)
  }

  function ColumnsSwsp(imm: bv32): bv32 {
    Bit(imm, 7, 8) | Bit(imm, 6, 7) | Bit(imm, 5, 12) | Bit(imm, 4, 11) | Bit(imm, 3, 10) | Bit(imm, 2, 9)
  }

  /** Immediates a format can carry: a sign-extended or unsigned range, and a multiple of a power of two. */
  predicate Carries(imm: bv32, sign: bv32, low: bv32) {
    Fits(imm, sign) && imm & low == 0
  }

  predicate CarriesUnsigned(imm: bv32, limit: bv32, low: bv32) {
    imm < limit && imm & low == 0
  }

  // The parcels, by their assembler names.
  function CAddi4spn(rd: Isa.Reg, imm: bv32): bv32 {
    LowPrime(rd) | ColumnsAddi4spn(imm)
  }

  function CLw(rd: Isa.Reg, rs1: Isa.Reg, imm: bv32): bv32 {
    0x4000 | HighPrime(rs1) | LowPrime(rd) | ColumnsLw(imm)
  }

  function CSw(rs1: Isa.Reg, rs2: Isa.Reg, imm: bv32): bv32 {
    0xc000 | HighPrime(rs1) | LowPrime(rs2) | ColumnsLw(imm)
  }

  function CAddi(rd: Isa.Reg, imm: bv32): bv32 {
    0x0001 | High(rd) | Columns6(imm)
  }

  function CLi(rd: Isa.Reg, imm: bv32): bv32 {
    0x4001 | High(rd) | Columns6(imm)
  }

  function CAddi16sp(imm: bv32): bv32 {
    0x6101 | ColumnsAddi16sp(imm)
  }

  function CLui(rd: Isa.Reg, imm: bv32): bv32 {
    0x6001 | High(rd) | Columns6(imm >> 12)
  }

  function CSrli(rd: Isa.Reg, imm: bv32): bv32 {
    0x8001 | HighPrime(rd) | Columns6(imm)
  }

  function CSrai(rd: Isa.Reg, imm: bv32): bv32 {
    0x8401 | HighPrime(rd) | Columns6(imm)
  }

  function CAndi(rd: Isa.Reg, imm: bv32): bv32 {
    0x8801 | HighPrime(rd) | Columns6(imm)
  }

  function CSub(rd: Isa.Reg, rs2: Isa.Reg): bv32 {
    0x8c01 | HighPrime(rd) | LowPrime(rs2)
  }

  function CXor(rd: Isa.Reg, rs2: Isa.Reg): bv32 {
    0x8c21 | HighPrime(rd) | LowPrime(rs2)
  }

  function COr(rd: Isa.Reg, rs2: Isa.Reg): bv32 {
    0x8c41 | HighPrime(rd) | LowPrime(rs2)
  }

  function CAnd(rd: Isa.Reg, rs2: Isa.Reg): bv32 {
    0x8c61 | HighPrime(rd) | LowPrime(rs2)
  }

  function CJump(rd: Isa.Reg, offset: bv32): bv32 {
    (if rd == 1 then 0x2001 else 0xa001) | ColumnsJump(offset)
  }

  function CBranch(cond: Cond, rs1: Isa.Reg, offset: bv32): bv32 {
    (if cond.Eq? then 0xc001 else 0xe001) | HighPrime(rs1) | ColumnsBranch(offset)
  }

  function CSlli(rd: Isa.Reg, imm: bv32): bv32 {
    0x0002 | High(rd) | Columns6(imm)
  }

  function CLwsp(rd: Isa.Reg, imm: bv32): bv32 {
    0x4002 | High(rd) | ColumnsLwsp(imm)
  }

  function CSwsp(rs2: Isa.Reg, imm: bv32): bv32 {
    0xc002 | Low(rs2) | ColumnsSwsp(imm)
  }

  function CMv(rd: Isa.Reg, rs2: Isa.Reg): bv32 {
    0x8002 | High(rd) | Low(rs2)
  }

  function CAdd(rd: Isa.Reg, rs2: Isa.Reg): bv32 {
    0x9002 | High(rd) | Low(rs2)
  }

  function CJr(rs1: Isa.Reg): bv32 {
    0x8002 | High(rs1)
  }

  function CJalr(rs1: Isa.Reg): bv32 {
    0x9002 | High(rs1)
  }

  // The short form of an instruction, if it has one.
  function ShortImmediate(op: AluOp, rd: Isa.Reg, rs1: Isa.Reg, imm: bv32): Option<bv32> {
    match op
    case Add =>
      if rd == rs1 && Carries(imm, 0x20, 0) then Some(CAddi(rd, imm))
      else if rs1 == 0 && Carries(imm, 0x20, 0) then Some(CLi(rd, imm))
      else if rd == rs1 == 2 && Carries(imm, 0x200, 15) then Some(CAddi16sp(imm))
      else if Prime(rd) && rs1 == 2 && imm != 0 && CarriesUnsigned(imm, 0x400, 3) then Some(CAddi4spn(rd, imm))
      else None
    case Sll => if rd == rs1 && imm < 32 then Some(CSlli(rd, imm)) else None
    case Srl => if rd == rs1 && Prime(rd) && imm < 32 then Some(CSrli(rd, imm)) else None
    case Sra => if rd == rs1 && Prime(rd) && imm < 32 then Some(CSrai(rd, imm)) else None
    case And => if rd == rs1 && Prime(rd) && Carries(imm, 0x20, 0) then Some(CAndi(rd, imm)) else None
    case _ => None
  }

  function ShortOp(op: AluOp, rd: Isa.Reg, rs1: Isa.Reg, rs2: Isa.Reg): Option<bv32> {
    if op.Add? then
      if rs2 == 0 then None
      else if rd == rs1 then Some(CAdd(rd, rs2))
      else if rs1 == 0 then Some(CMv(rd, rs2))
      else None
    else if rd != rs1 || !Prime(rd) || !Prime(rs2) then None
    else match op
      case Sub => Some(CSub(rd, rs2))
      case Xor => Some(CXor(rd, rs2))
      case Or => Some(COr(rd, rs2))
      case And => Some(CAnd(rd, rs2))
      case _ => None
  }

  function ShortLoad(rd: Isa.Reg, rs1: Isa.Reg, imm: bv32): Option<bv32> {
    if rs1 == 2 && CarriesUnsigned(imm, 0x100, 3) then Some(CLwsp(rd, imm))
    else if Prime(rd) && Prime(rs1) && CarriesUnsigned(imm, 0x80, 3) then Some(CLw(rd, rs1, imm))
    else None
  }

  function ShortStore(rs1: Isa.Reg, rs2: Isa.Reg, imm: bv32): Option<bv32> {
    if rs1 == 2 && CarriesUnsigned(imm, 0x100, 3) then Some(CSwsp(rs2, imm))
    else if Prime(rs1) && Prime(rs2) && CarriesUnsigned(imm, 0x80, 3) then Some(CSw(rs1, rs2, imm))
    else None
  }

  /** The compressed encoding of an instruction, if there is one. */
  function Compress(i: Instr): Option<bv32> {
    match i
    case OpImm(op, rd, rs1, imm) => ShortImmediate(op, rd, rs1, imm)
    case Op(op, rd, rs1, rs2) => ShortOp(op, rd, rs1, rs2)
    case Load(Word, true, rd, rs1, offset) => ShortLoad(rd, rs1, offset)
    case Store(Word, rs1, rs2, offset) => ShortStore(rs1, rs2, offset)
    case Branch(cond, rs1, rs2, offset) =>
      if (cond.Eq? || cond.Ne?) && Prime(rs1) && rs2 == 0 && Carries(offset, 0x100, 1) then
        Some(CBranch(cond, rs1, offset))
      else None
    case Jal(rd, offset) => if rd <= 1 && Carries(offset, 0x800, 1) then Some(CJump(rd, offset)) else None
    case Jalr(rd, rs1, offset) =>
      if offset != 0 then None
      else if rd == 0 then Some(CJr(rs1))
      else if rd == 1 && rs1 != 0 then Some(CJalr(rs1))
      else None
    case Lui(rd, imm) => if rd != 2 && Carries(imm, 0x2_0000, 0xfff) then Some(CLui(rd, imm)) else None
    case _ => None
  }

  // Fields of a parcel that was put together from them.

  lemma FieldsHigh6(base: bv32, rd: Isa.Reg, imm: bv32)
    requires base & 0xe003 == base && base & 3 != 3
    ensures var c := base | High(rd) | Columns6(imm);
      IsParcel(c) && c & 3 == base & 3 && c >> 13 == base >> 13 && RegHigh(c) == rd && Imm6(c) == imm & 0x3f
  {
  }

  lemma FieldsPrime6(base: bv32, rd: Isa.Reg, imm: bv32)
    requires base & 0xec03 == base && base & 3 != 3 && Prime(rd)
    ensures var c := base | HighPrime(rd) | Columns6(imm);
      && IsParcel(c) && c & 3 == base & 3 && c >> 13 == base >> 13 && PrimeHigh(c) == rd && Imm6(c) == imm & 0x3f
      && (c >> 10) & 3 == (base >> 10) & 3
  {
  }

  lemma FieldsAddi4spn(rd: Isa.Reg, imm: bv32)
    requires Prime(rd) && CarriesUnsigned(imm, 0x400, 3)
    ensures var c := LowPrime(rd) | ColumnsAddi4spn(imm);
      IsParcel(c) && c & 3 == 0 && c >> 13 == 0 && PrimeLow(c) == rd && ImmAddi4spn(c) == imm
  {
  }

  lemma FieldsAddi16sp(imm: bv32)
    requires Carries(imm, 0x200, 15)
    ensures var c := 0x6101 | ColumnsAddi16sp(imm);
      IsParcel(c) && c & 3 == 1 && c >> 13 == 3 && RegHigh(c) == 2 && ImmAddi16sp(c) == imm
  {
  }

  lemma FieldsLw(base: bv32, rs1: Isa.Reg, r: Isa.Reg, imm: bv32)
    requires base & 0xe003 == base && base & 3 != 3 && Prime(rs1) && Prime(r) && CarriesUnsigned(imm, 0x80, 3)
    ensures var c := base | HighPrime(rs1) | LowPrime(r) | ColumnsLw(imm);
      && IsParcel(c) && c & 3 == base & 3 && c >> 13 == base >> 13
      && PrimeHigh(c) == rs1 && PrimeLow(c) == r && ImmLw(c) == imm
  {
  }

  lemma FieldsLwsp(rd: Isa.Reg, imm: bv32)
    requires CarriesUnsigned(imm, 0x100, 3)
    ensures var c := 0x4002 | High(rd) | ColumnsLwsp(imm);
      IsParcel(c) && c & 3 == 2 && c >> 13 == 2 && RegHigh(c) == rd && ImmLwsp(c) == imm
  {
  }

  lemma FieldsSwsp(rs2: Isa.Reg, imm: bv32)
    requires CarriesUnsigned(imm, 0x100, 3)
    ensures var c := 0xc002 | Low(rs2) | ColumnsSwsp(imm);
      IsParcel(c) && c & 3 == 2 && c >> 13 == 6 && RegLow(c) == rs2 && ImmSwsp(c) == imm
  {
  }

  lemma FieldsBranch(base: bv32, rs1: Isa.Reg, offset: bv32)
    requires base & 0xe003 == base && base & 3 != 3 && Prime(rs1) && Carries(offset, 0x100, 1)
    ensures var c := base | HighPrime(rs1) | ColumnsBranch(offset);
      IsParcel(c) && c & 3 == base & 3 && c >> 13 == base >> 13 && PrimeHigh(c) == rs1 && ImmBranch(c) == offset
  {
  }

  lemma FieldsJump(base: bv32, offset: bv32)
    requires base & 0xe003 == base && base & 3 != 3 && Carries(offset, 0x800, 1)
    ensures var c := base | ColumnsJump(offset);
      IsParcel(c) && c & 3 == base & 3 && c >> 13 == base >> 13 && ImmJump(c) == offset
  {
  }

  lemma FieldsRegisters(base: bv32, rd: Isa.Reg, rs2: Isa.Reg)
    requires base & 0xf003 == base && base & 3 != 3
    ensures var c := base | High(rd) | Low(rs2);
      && IsParcel(c) && c & 3 == base & 3 && c >> 13 == base >> 13 && RegHigh(c) == rd && RegLow(c) == rs2
      && c & 0x1000 == base & 0x1000
  {
  }

  lemma FieldsRegister(base: bv32, rs1: Isa.Reg)
    requires base & 0xf003 == base && base & 3 != 3
    ensures var c := base | High(rs1);
      && IsParcel(c) && c & 3 == base & 3 && c >> 13 == base >> 13 && RegHigh(c) == rs1 && RegLow(c) == 0
      && c & 0x1000 == base & 0x1000
  {
  }

  lemma FieldsPrimes(base: bv32, rd: Isa.Reg, rs2: Isa.Reg)
    requires base & 0xfc63 == base && base & 3 != 3 && Prime(rd) && Prime(rs2)
    ensures var c := base | HighPrime(rd) | LowPrime(rs2);
      && IsParcel(c) && c & 3 == base & 3 && c >> 13 == base >> 13 && PrimeHigh(c) == rd && PrimeLow(c) == rs2
      && c & 0x1000 == base & 0x1000 && (c >> 10) & 3 == (base >> 10) & 3 && (c >> 5) & 3 == (base >> 5) & 3
  {
  }

  lemma SixBits(imm: bv32)
    ensures Carries(imm, 0x20, 0) ==> Sext(imm & 0x3f, 0x20) == imm
    ensures Carries(imm, 0x2_0000, 0xfff) ==> Sext((imm >> 12) & 0x3f, 0x20) << 12 == imm
    ensures imm < 32 ==> imm & 0x3f == imm
  {
  }

  // The listing of a parcel, by its fields.

  lemma Quadrant0(c: bv32)
    requires c & 3 == 0
    ensures c >> 13 == 0 && ImmAddi4spn(c) != 0 ==> Listing(c) == OpImm(Add, PrimeLow(c), 2, ImmAddi4spn(c))
    ensures c >> 13 == 2 ==> Listing(c) == Load(Word, true, PrimeLow(c), PrimeHigh(c), ImmLw(c))
    ensures c >> 13 == 6 ==> Listing(c) == Store(Word, PrimeHigh(c), PrimeLow(c), ImmLw(c))
  {
    hide RegHigh, RegLow, PrimeHigh, PrimeLow, Sext;
    hide Imm6, ImmAddi4spn, ImmLw, ImmJump, ImmBranch, ImmAddi16sp, ImmLwsp, ImmSwsp;
  }

  lemma Quadrant1(c: bv32)
    requires c & 3 == 1
    ensures c >> 13 == 0 ==> Listing(c) == OpImm(Add, RegHigh(c), RegHigh(c), Sext(Imm6(c), 0x20))
    ensures c >> 13 == 1 ==> Listing(c) == Jal(1, ImmJump(c))
    ensures c >> 13 == 2 ==> Listing(c) == OpImm(Add, RegHigh(c), 0, Sext(Imm6(c), 0x20))
    ensures c >> 13 == 3 && RegHigh(c) == 2 ==> Listing(c) == OpImm(Add, 2, 2, ImmAddi16sp(c))
    ensures c >> 13 == 3 && RegHigh(c) != 2 ==> Listing(c) == Lui(RegHigh(c), Sext(Imm6(c), 0x20) << 12)
    ensures c >> 13 == 5 ==> Listing(c) == Jal(0, ImmJump(c))
    ensures c >> 13 == 6 ==> Listing(c) == Branch(Eq, PrimeHigh(c), 0, ImmBranch(c))
    ensures c >> 13 == 7 ==> Listing(c) == Branch(Ne, PrimeHigh(c), 0, ImmBranch(c))
  {
    hide RegHigh, RegLow, PrimeHigh, PrimeLow, Sext;
    hide Imm6, ImmAddi4spn, ImmLw, ImmJump, ImmBranch, ImmAddi16sp, ImmLwsp, ImmSwsp;
    hide ListingArithmetic;
    TopBits(c);
  }

  lemma TopBits(c: bv32)
    ensures c >> 13 < 0x8_0000
  {
  }

  lemma QuadrantArithmetic(c: bv32)
    requires c & 3 == 1 && c >> 13 == 4
    ensures var d, sub, fn := PrimeHigh(c), (c >> 10) & 3, (c >> 5) & 3;
      && (sub == 0 ==> Listing(c) == OpImm(Srl, d, d, Imm6(c)))
      && (sub == 1 ==> Listing(c) == OpImm(Sra, d, d, Imm6(c)))
      && (sub == 2 ==> Listing(c) == OpImm(And, d, d, Sext(Imm6(c), 0x20)))
      && (sub == 3 && c & 0x1000 == 0 ==>
            Listing(c) ==
              Op(if fn == 0 then Sub else if fn == 1 then Xor else if fn == 2 then Or else And, d, d, PrimeLow(c)))
  {
    hide RegHigh, RegLow, PrimeHigh, PrimeLow, Sext;
    hide Imm6, ImmAddi4spn, ImmLw, ImmJump, ImmBranch, ImmAddi16sp, ImmLwsp, ImmSwsp;
    LastSub(c);
  }

  lemma LastSub(c: bv32)
    ensures (c >> 10) & 3 < 4
  {
  }

  lemma Quadrant2(c: bv32)
    requires c & 3 == 2
    ensures c >> 13 == 0 ==> Listing(c) == OpImm(Sll, RegHigh(c), RegHigh(c), Imm6(c))
    ensures c >> 13 == 2 ==> Listing(c) == Load(Word, true, RegHigh(c), 2, ImmLwsp(c))
    ensures c >> 13 == 4 && c & 0x1000 == 0 ==>
      Listing(c) == if RegLow(c) == 0 then Jalr(0, RegHigh(c), 0) else Op(Add, RegHigh(c), 0, RegLow(c))
    ensures c >> 13 == 4 && c & 0x1000 != 0 && RegLow(c) != 0 ==>
      Listing(c) == Op(Add, RegHigh(c), RegHigh(c), RegLow(c))
    ensures c >> 13 == 4 && c & 0x1000 != 0 && RegLow(c) == 0 && RegHigh(c) != 0 ==>
      Listing(c) == Jalr(1, RegHigh(c), 0)
    ensures c >> 13 == 6 ==> Listing(c) == Store(Word, 2, RegLow(c), ImmSwsp(c))
  {
    hide RegHigh, RegLow, PrimeHigh, PrimeLow, Sext;
    hide Imm6, ImmAddi4spn, ImmLw, ImmJump, ImmBranch, ImmAddi16sp, ImmLwsp, ImmSwsp;
  }

  // Each parcel is one, and lists as its instruction.

  lemma CAddi4spnLists(rd: Isa.Reg, imm: bv32)
    requires Prime(rd) && imm != 0 && CarriesUnsigned(imm, 0x400, 3)
    ensures IsParcel(CAddi4spn(rd, imm)) && Listing(CAddi4spn(rd, imm)) == OpImm(Add, rd, 2, imm)
  {
    hide High, Low, HighPrime, LowPrime, RegHigh, RegLow, PrimeHigh, PrimeLow, Sext, Fits, Listing;
    hide Columns6, ColumnsAddi4spn, ColumnsLw, ColumnsJump, ColumnsBranch, ColumnsAddi16sp, ColumnsLwsp, ColumnsSwsp;
    hide Imm6, ImmAddi4spn, ImmLw, ImmJump, ImmBranch, ImmAddi16sp, ImmLwsp, ImmSwsp;
    FieldsAddi4spn(rd, imm);
    Quadrant0(CAddi4spn(rd, imm));
  }

  lemma CLwLists(rd: Isa.Reg, rs1: Isa.Reg, imm: bv32)
    requires Prime(rd) && Prime(rs1) && CarriesUnsigned(imm, 0x80, 3)
    ensures IsParcel(CLw(rd, rs1, imm)) && Listing(CLw(rd, rs1, imm)) == Load(Word, true, rd, rs1, imm)
  {
    hide High, Low, HighPrime, LowPrime, RegHigh, RegLow, PrimeHigh, PrimeLow, Sext, Fits, Listing;
    hide Columns6, ColumnsAddi4spn, ColumnsLw, ColumnsJump, ColumnsBranch, ColumnsAddi16sp, ColumnsLwsp, ColumnsSwsp;
    hide Imm6, ImmAddi4spn, ImmLw, ImmJump, ImmBranch, ImmAddi16sp, ImmLwsp, ImmSwsp;
    FieldsLw(0x4000, rs1, rd, imm);
    Quadrant0(CLw(rd, rs1, imm));
  }

  lemma CSwLists(rs1: Isa.Reg, rs2: Isa.Reg, imm: bv32)
    requires Prime(rs1) && Prime(rs2) && CarriesUnsigned(imm, 0x80, 3)
    ensures IsParcel(CSw(rs1, rs2, imm)) && Listing(CSw(rs1, rs2, imm)) == Store(Word, rs1, rs2, imm)
  {
    hide High, Low, HighPrime, LowPrime, RegHigh, RegLow, PrimeHigh, PrimeLow, Sext, Fits, Listing;
    hide Columns6, ColumnsAddi4spn, ColumnsLw, ColumnsJump, ColumnsBranch, ColumnsAddi16sp, ColumnsLwsp, ColumnsSwsp;
    hide Imm6, ImmAddi4spn, ImmLw, ImmJump, ImmBranch, ImmAddi16sp, ImmLwsp, ImmSwsp;
    FieldsLw(0xc000, rs1, rs2, imm);
    Quadrant0(CSw(rs1, rs2, imm));
  }

  lemma CAddiLists(rd: Isa.Reg, imm: bv32)
    requires Carries(imm, 0x20, 0)
    ensures IsParcel(CAddi(rd, imm)) && Listing(CAddi(rd, imm)) == OpImm(Add, rd, rd, imm)
  {
    hide High, Low, HighPrime, LowPrime, RegHigh, RegLow, PrimeHigh, PrimeLow, Sext, Fits, Listing;
    hide Columns6, ColumnsAddi4spn, ColumnsLw, ColumnsJump, ColumnsBranch, ColumnsAddi16sp, ColumnsLwsp, ColumnsSwsp;
    hide Imm6, ImmAddi4spn, ImmLw, ImmJump, ImmBranch, ImmAddi16sp, ImmLwsp, ImmSwsp;
    SixBits(imm);
    FieldsHigh6(0x0001, rd, imm);
    Quadrant1(CAddi(rd, imm));
  }

  lemma CLiLists(rd: Isa.Reg, imm: bv32)
    requires Carries(imm, 0x20, 0)
    ensures IsParcel(CLi(rd, imm)) && Listing(CLi(rd, imm)) == OpImm(Add, rd, 0, imm)
  {
    hide High, Low, HighPrime, LowPrime, RegHigh, RegLow, PrimeHigh, PrimeLow, Sext, Fits, Listing;
    hide Columns6, ColumnsAddi4spn, ColumnsLw, ColumnsJump, ColumnsBranch, ColumnsAddi16sp, ColumnsLwsp, ColumnsSwsp;
    hide Imm6, ImmAddi4spn, ImmLw, ImmJump, ImmBranch, ImmAddi16sp, ImmLwsp, ImmSwsp;
    SixBits(imm);
    FieldsHigh6(0x4001, rd, imm);
    Quadrant1(CLi(rd, imm));
  }

  lemma CAddi16spLists(imm: bv32)
    requires Carries(imm, 0x200, 15)
    ensures IsParcel(CAddi16sp(imm)) && Listing(CAddi16sp(imm)) == OpImm(Add, 2, 2, imm)
  {
    hide High, Low, HighPrime, LowPrime, RegHigh, RegLow, PrimeHigh, PrimeLow, Sext, Fits, Listing;
    hide Columns6, ColumnsAddi4spn, ColumnsLw, ColumnsJump, ColumnsBranch, ColumnsAddi16sp, ColumnsLwsp, ColumnsSwsp;
    hide Imm6, ImmAddi4spn, ImmLw, ImmJump, ImmBranch, ImmAddi16sp, ImmLwsp, ImmSwsp;
    FieldsAddi16sp(imm);
    Quadrant1(CAddi16sp(imm));
  }

  lemma CLuiLists(rd: Isa.Reg, imm: bv32)
    requires rd != 2 && Carries(imm, 0x2_0000, 0xfff)
    ensures IsParcel(CLui(rd, imm)) && Listing(CLui(rd, imm)) == Lui(rd, imm)
  {
    hide High, Low, HighPrime, LowPrime, RegHigh, RegLow, PrimeHigh, PrimeLow, Sext, Fits, Listing;
    hide Columns6, ColumnsAddi4spn, ColumnsLw, ColumnsJump, ColumnsBranch, ColumnsAddi16sp, ColumnsLwsp, ColumnsSwsp;
    hide Imm6, ImmAddi4spn, ImmLw, ImmJump, ImmBranch, ImmAddi16sp, ImmLwsp, ImmSwsp;
    SixBits(imm);
    FieldsHigh6(0x6001, rd, imm >> 12);
    Quadrant1(CLui(rd, imm));
  }

  lemma CSrliLists(rd: Isa.Reg, imm: bv32)
    requires Prime(rd) && imm < 32
    ensures IsParcel(CSrli(rd, imm)) && Listing(CSrli(rd, imm)) == OpImm(Srl, rd, rd, imm)
  {
    hide High, Low, HighPrime, LowPrime, RegHigh, RegLow, PrimeHigh, PrimeLow, Sext, Fits, Listing;
    hide Columns6, ColumnsAddi4spn, ColumnsLw, ColumnsJump, ColumnsBranch, ColumnsAddi16sp, ColumnsLwsp, ColumnsSwsp;
    hide Imm6, ImmAddi4spn, ImmLw, ImmJump, ImmBranch, ImmAddi16sp, ImmLwsp, ImmSwsp;
    SixBits(imm);
    FieldsPrime6(0x8001, rd, imm);
    QuadrantArithmetic(CSrli(rd, imm));
  }

  lemma CSraiLists(rd: Isa.Reg, imm: bv32)
    requires Prime(rd) && imm < 32
    ensures IsParcel(CSrai(rd, imm)) && Listing(CSrai(rd, imm)) == OpImm(Sra, rd, rd, imm)
  {
    hide High, Low, HighPrime, LowPrime, RegHigh, RegLow, PrimeHigh, PrimeLow, Sext, Fits, Listing;
    hide Columns6, ColumnsAddi4spn, ColumnsLw, ColumnsJump, ColumnsBranch, ColumnsAddi16sp, ColumnsLwsp, ColumnsSwsp;
    hide Imm6, ImmAddi4spn, ImmLw, ImmJump, ImmBranch, ImmAddi16sp, ImmLwsp, ImmSwsp;
    SixBits(imm);
    FieldsPrime6(0x8401, rd, imm);
    QuadrantArithmetic(CSrai(rd, imm));
  }

  lemma CAndiLists(rd: Isa.Reg, imm: bv32)
    requires Prime(rd) && Carries(imm, 0x20, 0)
    ensures IsParcel(CAndi(rd, imm)) && Listing(CAndi(rd, imm)) == OpImm(And, rd, rd, imm)
  {
    hide High, Low, HighPrime, LowPrime, RegHigh, RegLow, PrimeHigh, PrimeLow, Sext, Fits, Listing;
    hide Columns6, ColumnsAddi4spn, ColumnsLw, ColumnsJump, ColumnsBranch, ColumnsAddi16sp, ColumnsLwsp, ColumnsSwsp;
    hide Imm6, ImmAddi4spn, ImmLw, ImmJump, ImmBranch, ImmAddi16sp, ImmLwsp, ImmSwsp;
    SixBits(imm);
    FieldsPrime6(0x8801, rd, imm);
    QuadrantArithmetic(CAndi(rd, imm));
  }

  lemma CSubLists(rd: Isa.Reg, rs2: Isa.Reg)
    requires Prime(rd) && Prime(rs2)
    ensures IsParcel(CSub(rd, rs2)) && Listing(CSub(rd, rs2)) == Op(Sub, rd, rd, rs2)
  {
    hide High, Low, HighPrime, LowPrime, RegHigh, RegLow, PrimeHigh, PrimeLow, Sext, Fits, Listing;
    hide Columns6, ColumnsAddi4spn, ColumnsLw, ColumnsJump, ColumnsBranch, ColumnsAddi16sp, ColumnsLwsp, ColumnsSwsp;
    hide Imm6, ImmAddi4spn, ImmLw, ImmJump, ImmBranch, ImmAddi16sp, ImmLwsp, ImmSwsp;
    FieldsPrimes(0x8c01, rd, rs2);
    QuadrantArithmetic(CSub(rd, rs2));
  }

  lemma CXorLists(rd: Isa.Reg, rs2: Isa.Reg)
    requires Prime(rd) && Prime(rs2)
    ensures IsParcel(CXor(rd, rs2)) && Listing(CXor(rd, rs2)) == Op(Xor, rd, rd, rs2)
  {
    hide High, Low, HighPrime, LowPrime, RegHigh, RegLow, PrimeHigh, PrimeLow, Sext, Fits, Listing;
    hide Columns6, ColumnsAddi4spn, ColumnsLw, ColumnsJump, ColumnsBranch, ColumnsAddi16sp, ColumnsLwsp, ColumnsSwsp;
    hide Imm6, ImmAddi4spn, ImmLw, ImmJump, ImmBranch, ImmAddi16sp, ImmLwsp, ImmSwsp;
    FieldsPrimes(0x8c21, rd, rs2);
    QuadrantArithmetic(CXor(rd, rs2));
  }

  lemma COrLists(rd: Isa.Reg, rs2: Isa.Reg)
    requires Prime(rd) && Prime(rs2)
    ensures IsParcel(COr(rd, rs2)) && Listing(COr(rd, rs2)) == Op(Or, rd, rd, rs2)
  {
    hide High, Low, HighPrime, LowPrime, RegHigh, RegLow, PrimeHigh, PrimeLow, Sext, Fits, Listing;
    hide Columns6, ColumnsAddi4spn, ColumnsLw, ColumnsJump, ColumnsBranch, ColumnsAddi16sp, ColumnsLwsp, ColumnsSwsp;
    hide Imm6, ImmAddi4spn, ImmLw, ImmJump, ImmBranch, ImmAddi16sp, ImmLwsp, ImmSwsp;
    FieldsPrimes(0x8c41, rd, rs2);
    QuadrantArithmetic(COr(rd, rs2));
  }

  lemma CAndLists(rd: Isa.Reg, rs2: Isa.Reg)
    requires Prime(rd) && Prime(rs2)
    ensures IsParcel(CAnd(rd, rs2)) && Listing(CAnd(rd, rs2)) == Op(And, rd, rd, rs2)
  {
    hide High, Low, HighPrime, LowPrime, RegHigh, RegLow, PrimeHigh, PrimeLow, Sext, Fits, Listing;
    hide Columns6, ColumnsAddi4spn, ColumnsLw, ColumnsJump, ColumnsBranch, ColumnsAddi16sp, ColumnsLwsp, ColumnsSwsp;
    hide Imm6, ImmAddi4spn, ImmLw, ImmJump, ImmBranch, ImmAddi16sp, ImmLwsp, ImmSwsp;
    FieldsPrimes(0x8c61, rd, rs2);
    QuadrantArithmetic(CAnd(rd, rs2));
  }

  lemma CJumpLists(rd: Isa.Reg, offset: bv32)
    requires rd <= 1 && Carries(offset, 0x800, 1)
    ensures IsParcel(CJump(rd, offset)) && Listing(CJump(rd, offset)) == Jal(rd, offset)
  {
    hide High, Low, HighPrime, LowPrime, RegHigh, RegLow, PrimeHigh, PrimeLow, Sext, Fits, Listing;
    hide Columns6, ColumnsAddi4spn, ColumnsLw, ColumnsJump, ColumnsBranch, ColumnsAddi16sp, ColumnsLwsp, ColumnsSwsp;
    hide Imm6, ImmAddi4spn, ImmLw, ImmJump, ImmBranch, ImmAddi16sp, ImmLwsp, ImmSwsp;
    FieldsJump(if rd == 1 then 0x2001 else 0xa001, offset);
    Quadrant1(CJump(rd, offset));
  }

  lemma CBranchLists(cond: Cond, rs1: Isa.Reg, offset: bv32)
    requires (cond.Eq? || cond.Ne?) && Prime(rs1) && Carries(offset, 0x100, 1)
    ensures IsParcel(CBranch(cond, rs1, offset)) && Listing(CBranch(cond, rs1, offset)) == Branch(cond, rs1, 0, offset)
  {
    hide High, Low, HighPrime, LowPrime, RegHigh, RegLow, PrimeHigh, PrimeLow, Sext, Fits, Listing;
    hide Columns6, ColumnsAddi4spn, ColumnsLw, ColumnsJump, ColumnsBranch, ColumnsAddi16sp, ColumnsLwsp, ColumnsSwsp;
    hide Imm6, ImmAddi4spn, ImmLw, ImmJump, ImmBranch, ImmAddi16sp, ImmLwsp, ImmSwsp;
    FieldsBranch(if cond.Eq? then 0xc001 else 0xe001, rs1, offset);
    Quadrant1(CBranch(cond, rs1, offset));
  }

  lemma CSlliLists(rd: Isa.Reg, imm: bv32)
    requires imm < 32
    ensures IsParcel(CSlli(rd, imm)) && Listing(CSlli(rd, imm)) == OpImm(Sll, rd, rd, imm)
  {
    hide High, Low, HighPrime, LowPrime, RegHigh, RegLow, PrimeHigh, PrimeLow, Sext, Fits, Listing;
    hide Columns6, ColumnsAddi4spn, ColumnsLw, ColumnsJump, ColumnsBranch, ColumnsAddi16sp, ColumnsLwsp, ColumnsSwsp;
    hide Imm6, ImmAddi4spn, ImmLw, ImmJump, ImmBranch, ImmAddi16sp, ImmLwsp, ImmSwsp;
    SixBits(imm);
    FieldsHigh6(0x0002, rd, imm);
    Quadrant2(CSlli(rd, imm));
  }

  lemma CLwspLists(rd: Isa.Reg, imm: bv32)
    requires CarriesUnsigned(imm, 0x100, 3)
    ensures IsParcel(CLwsp(rd, imm)) && Listing(CLwsp(rd, imm)) == Load(Word, true, rd, 2, imm)
  {
    hide High, Low, HighPrime, LowPrime, RegHigh, RegLow, PrimeHigh, PrimeLow, Sext, Fits, Listing;
    hide Columns6, ColumnsAddi4spn, ColumnsLw, ColumnsJump, ColumnsBranch, ColumnsAddi16sp, ColumnsLwsp, ColumnsSwsp;
    hide Imm6, ImmAddi4spn, ImmLw, ImmJump, ImmBranch, ImmAddi16sp, ImmLwsp, ImmSwsp;
    FieldsLwsp(rd, imm);
    Quadrant2(CLwsp(rd, imm));
  }

  lemma CSwspLists(rs2: Isa.Reg, imm: bv32)
    requires CarriesUnsigned(imm, 0x100, 3)
    ensures IsParcel(CSwsp(rs2, imm)) && Listing(CSwsp(rs2, imm)) == Store(Word, 2, rs2, imm)
  {
    hide High, Low, HighPrime, LowPrime, RegHigh, RegLow, PrimeHigh, PrimeLow, Sext, Fits, Listing;
    hide Columns6, ColumnsAddi4spn, ColumnsLw, ColumnsJump, ColumnsBranch, ColumnsAddi16sp, ColumnsLwsp, ColumnsSwsp;
    hide Imm6, ImmAddi4spn, ImmLw, ImmJump, ImmBranch, ImmAddi16sp, ImmLwsp, ImmSwsp;
    FieldsSwsp(rs2, imm);
    Quadrant2(CSwsp(rs2, imm));
  }

  lemma CMvLists(rd: Isa.Reg, rs2: Isa.Reg)
    requires rs2 != 0
    ensures IsParcel(CMv(rd, rs2)) && Listing(CMv(rd, rs2)) == Op(Add, rd, 0, rs2)
  {
    hide High, Low, HighPrime, LowPrime, RegHigh, RegLow, PrimeHigh, PrimeLow, Sext, Fits, Listing;
    hide Columns6, ColumnsAddi4spn, ColumnsLw, ColumnsJump, ColumnsBranch, ColumnsAddi16sp, ColumnsLwsp, ColumnsSwsp;
    hide Imm6, ImmAddi4spn, ImmLw, ImmJump, ImmBranch, ImmAddi16sp, ImmLwsp, ImmSwsp;
    FieldsRegisters(0x8002, rd, rs2);
    Quadrant2(CMv(rd, rs2));
  }

  lemma CAddLists(rd: Isa.Reg, rs2: Isa.Reg)
    requires rs2 != 0
    ensures IsParcel(CAdd(rd, rs2)) && Listing(CAdd(rd, rs2)) == Op(Add, rd, rd, rs2)
  {
    hide High, Low, HighPrime, LowPrime, RegHigh, RegLow, PrimeHigh, PrimeLow, Sext, Fits, Listing;
    hide Columns6, ColumnsAddi4spn, ColumnsLw, ColumnsJump, ColumnsBranch, ColumnsAddi16sp, ColumnsLwsp, ColumnsSwsp;
    hide Imm6, ImmAddi4spn, ImmLw, ImmJump, ImmBranch, ImmAddi16sp, ImmLwsp, ImmSwsp;
    FieldsRegisters(0x9002, rd, rs2);
    Quadrant2(CAdd(rd, rs2));
  }

  lemma CJrLists(rs1: Isa.Reg)
    ensures IsParcel(CJr(rs1)) && Listing(CJr(rs1)) == Jalr(0, rs1, 0)
  {
    hide High, Low, HighPrime, LowPrime, RegHigh, RegLow, PrimeHigh, PrimeLow, Sext, Fits, Listing;
    hide Columns6, ColumnsAddi4spn, ColumnsLw, ColumnsJump, ColumnsBranch, ColumnsAddi16sp, ColumnsLwsp, ColumnsSwsp;
    hide Imm6, ImmAddi4spn, ImmLw, ImmJump, ImmBranch, ImmAddi16sp, ImmLwsp, ImmSwsp;
    FieldsRegister(0x8002, rs1);
    Quadrant2(CJr(rs1));
  }

  lemma CJalrLists(rs1: Isa.Reg)
    requires rs1 != 0
    ensures IsParcel(CJalr(rs1)) && Listing(CJalr(rs1)) == Jalr(1, rs1, 0)
  {
    hide High, Low, HighPrime, LowPrime, RegHigh, RegLow, PrimeHigh, PrimeLow, Sext, Fits, Listing;
    hide Columns6, ColumnsAddi4spn, ColumnsLw, ColumnsJump, ColumnsBranch, ColumnsAddi16sp, ColumnsLwsp, ColumnsSwsp;
    hide Imm6, ImmAddi4spn, ImmLw, ImmJump, ImmBranch, ImmAddi16sp, ImmLwsp, ImmSwsp;
    FieldsRegister(0x9002, rs1);
    Quadrant2(CJalr(rs1));
  }

  /** The short form of an instruction is a parcel and lists as that instruction. */
  lemma CompressLists(i: Instr)
    requires Compress(i).Some?
    ensures IsParcel(Compress(i).value) && Listing(Compress(i).value) == i
  {
    hide Listing, Fits, IsParcel;
    hide CAddi4spn, CLw, CSw, CAddi, CLi, CAddi16sp, CLui, CSrli, CSrai, CAndi, CSub, CXor;
    hide COr, CAnd, CJump, CBranch, CSlli, CLwsp, CSwsp, CMv, CAdd, CJr, CJalr;
    match i
    case OpImm(op, rd, rs1, imm) => ImmediateLists(op, rd, rs1, imm);
    case Op(op, rd, rs1, rs2) => OpLists(op, rd, rs1, rs2);
    case Load(_, _, rd, rs1, offset) =>
      if rs1 == 2 && CarriesUnsigned(offset, 0x100, 3) { CLwspLists(rd, offset); } else { CLwLists(rd, rs1, offset); }
    case Store(_, rs1, rs2, offset) =>
      if rs1 == 2 && CarriesUnsigned(offset, 0x100, 3) { CSwspLists(rs2, offset); } else { CSwLists(rs1, rs2, offset); }
    case Branch(cond, rs1, _, offset) => CBranchLists(cond, rs1, offset);
    case Jal(rd, offset) => CJumpLists(rd, offset);
    case Jalr(rd, rs1, _) => if rd == 0 { CJrLists(rs1); } else { CJalrLists(rs1); }
    case Lui(rd, imm) => CLuiLists(rd, imm);
  }

  lemma ImmediateLists(op: AluOp, rd: Isa.Reg, rs1: Isa.Reg, imm: bv32)
    requires ShortImmediate(op, rd, rs1, imm).Some?
    ensures var c := ShortImmediate(op, rd, rs1, imm).value; IsParcel(c) && Listing(c) == OpImm(op, rd, rs1, imm)
  {
    hide Listing, Fits, IsParcel;
    hide CAddi4spn, CLw, CSw, CAddi, CLi, CAddi16sp, CLui, CSrli, CSrai, CAndi, CSub, CXor;
    hide COr, CAnd, CJump, CBranch, CSlli, CLwsp, CSwsp, CMv, CAdd, CJr, CJalr;
    match op
    case Add =>
      if rd == rs1 && Carries(imm, 0x20, 0) { CAddiLists(rd, imm); }
      else if rs1 == 0 && Carries(imm, 0x20, 0) { CLiLists(rd, imm); }
      else if rd == rs1 == 2 && Carries(imm, 0x200, 15) { CAddi16spLists(imm); }
      else { CAddi4spnLists(rd, imm); }
    case Sll => CSlliLists(rd, imm);
    case Srl => CSrliLists(rd, imm);
    case Sra => CSraiLists(rd, imm);
    case And => CAndiLists(rd, imm);
  }

  lemma OpLists(op: AluOp, rd: Isa.Reg, rs1: Isa.Reg, rs2: Isa.Reg)
    requires ShortOp(op, rd, rs1, rs2).Some?
    ensures var c := ShortOp(op, rd, rs1, rs2).value; IsParcel(c) && Listing(c) == Op(op, rd, rs1, rs2)
  {
    hide Listing, IsParcel;
    hide CAddi4spn, CLw, CSw, CAddi, CLi, CAddi16sp, CLui, CSrli, CSrai, CAndi, CSub, CXor;
    hide COr, CAnd, CJump, CBranch, CSlli, CLwsp, CSwsp, CMv, CAdd, CJr, CJalr;
    match op
    case Add => if rd == rs1 { CAddLists(rd, rs2); } else { CMvLists(rd, rs2); }
    case Sub => CSubLists(rd, rs2);
    case Xor => CXorLists(rd, rs2);
    case Or => COrLists(rd, rs2);
    case And => CAndLists(rd, rs2);
  }

  // Completeness: nothing else has a short form.

  lemma ImmediatesCarried(c: bv32)
    ensures CarriesUnsigned(ImmAddi4spn(c), 0x400, 3) && CarriesUnsigned(ImmLw(c), 0x80, 3)
    ensures CarriesUnsigned(ImmLwsp(c), 0x100, 3) && CarriesUnsigned(ImmSwsp(c), 0x100, 3)
  {
  }

  lemma SignedCarried(c: bv32)
    ensures Carries(Sext(Imm6(c), 0x20), 0x20, 0) && Carries(Sext(Imm6(c), 0x20) << 12, 0x2_0000, 0xfff)
    ensures Carries(ImmAddi16sp(c), 0x200, 15) && Carries(ImmBranch(c), 0x100, 1)
  {
  }

  lemma JumpCarried(c: bv32)
    ensures Carries(ImmJump(c), 0x800, 1)
  {
  }

  lemma PrimesArePrime(c: bv32)
    ensures Prime(PrimeHigh(c)) && Prime(PrimeLow(c))
  {
  }

  lemma Compresses0(c: bv32)
    requires !Listing0(c).Illegal?
    ensures Compress(Listing0(c)).Some?
  {
    hide RegHigh, RegLow, PrimeHigh, PrimeLow, Sext, Fits;
    hide Imm6, ImmAddi4spn, ImmLw, ImmJump, ImmBranch, ImmAddi16sp, ImmLwsp, ImmSwsp;
    hide CAddi4spn, CLw, CSw, CAddi, CLi, CAddi16sp, CLui, CSrli, CSrai, CAndi, CSub, CXor;
    hide COr, CAnd, CJump, CBranch, CSlli, CLwsp, CSwsp, CMv, CAdd, CJr, CJalr;
    hide Carries, CarriesUnsigned;
    ImmediatesCarried(c);
    PrimesArePrime(c);
    PrimeNotStack(PrimeLow(c));
    PrimeNotStack(PrimeHigh(c));
  }

  lemma PrimeNotStack(r: Isa.Reg)
    requires Prime(r)
    ensures r != 2 && r != 0
  {
  }

  lemma CompressesArithmetic(c: bv32)
    requires !ListingArithmetic(c).Illegal? && !WideShift(ListingArithmetic(c))
    ensures Compress(ListingArithmetic(c)).Some?
  {
    hide RegHigh, RegLow, PrimeHigh, PrimeLow, Sext, Fits;
    hide Imm6, ImmAddi4spn, ImmLw, ImmJump, ImmBranch, ImmAddi16sp, ImmLwsp, ImmSwsp;
    hide CAddi4spn, CLw, CSw, CAddi, CLi, CAddi16sp, CLui, CSrli, CSrai, CAndi, CSub, CXor;
    hide COr, CAnd, CJump, CBranch, CSlli, CLwsp, CSwsp, CMv, CAdd, CJr, CJalr;
    hide Carries, CarriesUnsigned;
    SignedCarried(c);
    PrimesArePrime(c);
  }

  lemma Compresses1(c: bv32)
    requires IsParcel(c) && !Listing1(c).Illegal? && !WideShift(Listing1(c))
    ensures Compress(Listing1(c)).Some?
  {
    hide RegHigh, RegLow, PrimeHigh, PrimeLow, Sext, Fits;
    hide Imm6, ImmAddi4spn, ImmLw, ImmJump, ImmBranch, ImmAddi16sp, ImmLwsp, ImmSwsp;
    hide CAddi4spn, CLw, CSw, CAddi, CLi, CAddi16sp, CLui, CSrli, CSrai, CAndi, CSub, CXor;
    hide COr, CAnd, CJump, CBranch, CSlli, CLwsp, CSwsp, CMv, CAdd, CJr, CJalr;
    hide Carries, CarriesUnsigned, ListingArithmetic;
    SignedCarried(c);
    JumpCarried(c);
    PrimesArePrime(c);
    if c >> 13 == 4 { CompressesArithmetic(c); }
  }

  lemma Compresses2(c: bv32)
    requires !Listing2(c).Illegal? && !WideShift(Listing2(c))
    ensures Compress(Listing2(c)).Some?
  {
    hide RegHigh, RegLow, PrimeHigh, PrimeLow, Sext, Fits;
    hide Imm6, ImmAddi4spn, ImmLw, ImmJump, ImmBranch, ImmAddi16sp, ImmLwsp, ImmSwsp;
    hide CAddi4spn, CLw, CSw, CAddi, CLi, CAddi16sp, CLui, CSrli, CSrai, CAndi, CSub, CXor;
    hide COr, CAnd, CJump, CBranch, CSlli, CLwsp, CSwsp, CMv, CAdd, CJr, CJalr;
    hide Carries, CarriesUnsigned;
    ImmediatesCarried(c);
  }

  /**
   * The instructions with a short form are exactly those that some parcel lists as, apart from the shifts by 32 or
   * more that RV32C reserves.
   */
  lemma CompressExactly(i: Instr)
    requires !i.Illegal? && !WideShift(i)
    ensures Compress(i).Some? <==> exists c :: IsParcel(c) && Listing(c) == i
  {
    hide Compress, Listing0, Listing1, Listing2, IsParcel;
    if Compress(i).Some? { CompressLists(i); }
    forall c | IsParcel(c) && Listing(c) == i ensures Compress(i).Some? {
      if c & 3 == 0 { Compresses0(c); } else if c & 3 == 1 { Compresses1(c); } else { Compresses2(c); }
    }
  }
}
