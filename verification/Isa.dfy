/** RV32IMAC instructions: the assembler-level view, its 32-bit encoding, and the decoder's field rules. */
module Isa {
  type Reg = bv5

  datatype Cond = Eq | Ne | Lt | Ge | Ltu | Geu
  datatype Width = Byte | Half | Word
  datatype AluOp = Add | Sub | Sll | Slt | Sltu | Xor | Srl | Sra | Or | And
  datatype MulOp = Mul | Mulh | Mulhsu | Mulhu | Div | Divu | Rem | Remu
  datatype AmoOp = Swap | AmoAdd | AmoXor | AmoAnd | AmoOr | AmoMin | AmoMax | AmoMinu | AmoMaxu
  datatype Counter = Cycle | Time | Instret

  /** Why an instruction was refused; `Silent` is the compressed path that sets no message. */
  datatype Trap =
    | FetchFault | Truncated | Silent
    | BadBranch | BadLoad | LoadFault | BadStore | StoreFault
    | IllegalAtomic | AtomicFault | IllegalLr | UnsupportedAtomic | AtomicStoreFault
    | Breakpoint | UnsupportedCsr | ReadOnlyCsr | UnsupportedOpcode
    | IllegalAddi4spn | UnsupportedC | Rv64Only

  /**
   * One decoded instruction. Offsets and immediates are two's-complement words. An atomic with an unknown
   * function code still loads its word first, so it is kept apart from the instructions refused outright.
   */
  datatype Instr =
    | Lui(rd: Reg, imm: bv32)
    | Auipc(rd: Reg, imm: bv32)
    | Jal(rd: Reg, offset: bv32)
    | Jalr(rd: Reg, rs1: Reg, offset: bv32)
    | Branch(cond: Cond, rs1: Reg, rs2: Reg, offset: bv32)
    | Load(width: Width, signed: bool, rd: Reg, rs1: Reg, offset: bv32)
    | Store(width: Width, rs1: Reg, rs2: Reg, offset: bv32)
    | OpImm(op: AluOp, rd: Reg, rs1: Reg, imm: bv32)
    | Op(op: AluOp, rd: Reg, rs1: Reg, rs2: Reg)
    | MulDiv(mop: MulOp, rd: Reg, rs1: Reg, rs2: Reg)
    | Lr(rd: Reg, rs1: Reg)
    | Sc(rd: Reg, rs1: Reg, rs2: Reg)
    | Amo(aop: AmoOp, rd: Reg, rs1: Reg, rs2: Reg)
    | BadAtomic(trap: Trap, rs1: Reg)
    | Fence
    | Ecall
    | Csr(counter: Counter, high: bool, rd: Reg)
    | Illegal(trap: Trap)

  // Fields of a 32-bit instruction word.
  function Rd(w: bv32): Reg { ((w >> 7) & 31) as bv5 }
  function F3(w: bv32): bv32 { (w >> 12) & 7 }
  function Rs1(w: bv32): Reg { ((w >> 15) & 31) as bv5 }
  function Rs2(w: bv32): Reg { ((w >> 20) & 31) as bv5 }
  function F7(w: bv32): bv32 { w >> 25 }

  /** Sign extension from the given sign bit, for a field that has no bits above it. */
  function Sext(v: bv32, sign: bv32): bv32 { (v ^ sign) - sign }

  // Immediates, one per format of the base ISA.
  function ImmI(w: bv32): bv32 { Sext(w >> 20, 0x800) }
  function ImmS(w: bv32): bv32 { Sext(((w >> 25) << 5) | ((w >> 7) & 31), 0x800) }
  function ImmU(w: bv32): bv32 { w & 0xffff_f000 }

  function ImmB(w: bv32): bv32 {
    Sext(((w >> 31) << 12) | (((w >> 7) & 1) << 11) | (((w >> 25) & 0x3f) << 5) | (((w >> 8) & 15) << 1), 0x1000)
  }

  function ImmJ(w: bv32): bv32 {
    Sext(((w >> 31) << 20) | (((w >> 12) & 0xff) << 12) | (((w >> 20) & 1) << 11) | (((w >> 21) & 0x3ff) << 1), 0x10_0000)
  }

  function AluOf(f3: bv32, alternate: bool): AluOp {
    if f3 == 0 then if alternate then Sub else Add
    else if f3 == 1 then Sll
    else if f3 == 2 then Slt
    else if f3 == 3 then Sltu
    else if f3 == 4 then Xor
    else if f3 == 5 then if alternate then Sra else Srl
    else if f3 == 6 then Or
    else And
  }

  function MulOf(f3: bv32): MulOp {
    if f3 == 0 then Mul else if f3 == 1 then Mulh else if f3 == 2 then Mulhsu else if f3 == 3 then Mulhu
    else if f3 == 4 then Div else if f3 == 5 then Divu else if f3 == 6 then Rem else Remu
  }

  function CondOf(f3: bv32): Cond {
    if f3 == 0 then Eq else if f3 == 1 then Ne else if f3 == 4 then Lt
    else if f3 == 5 then Ge else if f3 == 6 then Ltu else Geu
  }

  function DecodeLoad(w: bv32): Instr {
    var f3, rd, rs1 := F3(w), Rd(w), Rs1(w);
    if f3 == 0 then Load(Byte, true, rd, rs1, ImmI(w))
    else if f3 == 1 then Load(Half, true, rd, rs1, ImmI(w))
    else if f3 == 2 then Load(Word, true, rd, rs1, ImmI(w))
    else if f3 == 4 then Load(Byte, false, rd, rs1, ImmI(w))
    else if f3 == 5 then Load(Half, false, rd, rs1, ImmI(w))
    else Illegal(BadLoad)
  }

  function DecodeImmediate(w: bv32): Instr {
    var f3, rd, rs1 := F3(w), Rd(w), Rs1(w);
    if f3 == 1 then OpImm(Sll, rd, rs1, Rs2(w) as bv32)
    else if f3 == 5 then OpImm(if w & 0x4000_0000 != 0 then Sra else Srl, rd, rs1, Rs2(w) as bv32)
    else OpImm(AluOf(f3, false), rd, rs1, ImmI(w))
  }

  function DecodeAtomic(w: bv32): Instr {
    var f5, rd, rs1, rs2 := F7(w) >> 2, Rd(w), Rs1(w), Rs2(w);
    if F3(w) != 2 then Illegal(IllegalAtomic)
    else if f5 == 2 then if rs2 != 0 then BadAtomic(IllegalLr, rs1) else Lr(rd, rs1)
    else if f5 == 3 then Sc(rd, rs1, rs2)
    else if f5 == 1 then Amo(Swap, rd, rs1, rs2)
    else if f5 == 0 then Amo(AmoAdd, rd, rs1, rs2)
    else if f5 == 4 then Amo(AmoXor, rd, rs1, rs2)
    else if f5 == 12 then Amo(AmoAnd, rd, rs1, rs2)
    else if f5 == 8 then Amo(AmoOr, rd, rs1, rs2)
    else if f5 == 16 then Amo(AmoMin, rd, rs1, rs2)
    else if f5 == 20 then Amo(AmoMax, rd, rs1, rs2)
    else if f5 == 24 then Amo(AmoMinu, rd, rs1, rs2)
    else if f5 == 28 then Amo(AmoMaxu, rd, rs1, rs2)
    else BadAtomic(UnsupportedAtomic, rs1)
  }

  function DecodeSystem(w: bv32): Instr {
    var csr, f3, rd := w >> 20, F3(w), Rd(w);
    if w == 0x73 then Ecall
    else if w == 0x10_0073 then Illegal(Breakpoint)
    else if csr != 0xC00 && csr != 0xC01 && csr != 0xC02 && csr != 0xC80 && csr != 0xC81 && csr != 0xC82 then
      Illegal(UnsupportedCsr)
    else if f3 == 0 || f3 == 1 || f3 == 4 || f3 == 5 || Rs1(w) != 0 then Illegal(ReadOnlyCsr)
    else Csr(if csr & 3 == 0 then Cycle else if csr & 3 == 1 then Time else Instret, csr >= 0xC80, rd)
  }

  /** The decoder, with the laxity of the interpreter: fields it does not look at are not checked. */
  function Decode(w: bv32): Instr {
    var op, rd, f3, rs1, rs2 := w & 0x7f, Rd(w), F3(w), Rs1(w), Rs2(w);
    if op == 0x37 then Lui(rd, ImmU(w))
    else if op == 0x17 then Auipc(rd, ImmU(w))
    else if op == 0x6f then Jal(rd, ImmJ(w))
    else if op == 0x67 then Jalr(rd, rs1, ImmI(w))
    else if op == 0x63 then
      if f3 == 2 || f3 == 3 then Illegal(BadBranch) else Branch(CondOf(f3), rs1, rs2, ImmB(w))
    else if op == 0x03 then DecodeLoad(w)
    else if op == 0x23 then
      if f3 > 2 then Illegal(BadStore)
      else Store(if f3 == 0 then Byte else if f3 == 1 then Half else Word, rs1, rs2, ImmS(w))
    else if op == 0x13 then DecodeImmediate(w)
    else if op == 0x33 then
      if F7(w) == 1 then MulDiv(MulOf(f3), rd, rs1, rs2) else Op(AluOf(f3, F7(w) == 0x20), rd, rs1, rs2)
    else if op == 0x2f then DecodeAtomic(w)
    else if op == 0x0f then Fence
    else if op == 0x73 then DecodeSystem(w)
    else Illegal(UnsupportedOpcode)
  }

  /** A signed value that fits in the bits up to and including `sign`. */
  predicate Fits(v: bv32, sign: bv32) {
    v + sign <= sign + (sign - 1)
  }

  /** Instructions an assembler can write: operands in range for their format. */
  predicate Encodable(i: Instr) {
    match i
    case Lui(_, imm) => imm & 0xfff == 0
    case Auipc(_, imm) => imm & 0xfff == 0
    case Jal(_, offset) => Fits(offset, 0x10_0000) && offset & 1 == 0
    case Jalr(_, _, offset) => Fits(offset, 0x800)
    case Branch(_, _, _, offset) => Fits(offset, 0x1000) && offset & 1 == 0
    case Load(width, signed, _, _, offset) => Fits(offset, 0x800) && (width == Word ==> signed)
    case Store(_, _, _, offset) => Fits(offset, 0x800)
    case OpImm(op, _, _, imm) => if op.Sll? || op.Srl? || op.Sra? then imm < 32 else !op.Sub? && Fits(imm, 0x800)
    case BadAtomic(_, _) => false
    case Illegal(_) => false
    case _ => true
  }

  function CondCode(c: Cond): bv32 {
    match c case Eq => 0 case Ne => 1 case Lt => 4 case Ge => 5 case Ltu => 6 case Geu => 7
  }

  function AluCode(op: AluOp): bv32 {
    match op
    case Add => 0 case Sub => 0 case Sll => 1 case Slt => 2 case Sltu => 3
    case Xor => 4 case Srl => 5 case Sra => 5 case Or => 6 case And => 7
  }

  function MulCode(op: MulOp): bv32 {
    match op
    case Mul => 0 case Mulh => 1 case Mulhsu => 2 case Mulhu => 3
    case Div => 4 case Divu => 5 case Rem => 6 case Remu => 7
  }

  function AmoCode(op: AmoOp): bv32 {
    match op
    case Swap => 1 case AmoAdd => 0 case AmoXor => 4 case AmoAnd => 12 case AmoOr => 8
    case AmoMin => 16 case AmoMax => 20 case AmoMinu => 24 case AmoMaxu => 28
  }

  function WidthCode(width: Width): bv32 {
    match width case Byte => 0 case Half => 1 case Word => 2
  }

  // The encoding formats: each puts its immediate where the matching decoder above finds it.
  function PackR(op: bv32, rd: Reg, f3: bv32, rs1: Reg, rs2: Reg, f7: bv32): bv32 {
    op | ((rd as bv32) << 7) | (f3 << 12) | ((rs1 as bv32) << 15) | ((rs2 as bv32) << 20) | (f7 << 25)
  }

  function PackI(op: bv32, rd: Reg, f3: bv32, rs1: Reg, imm: bv32): bv32 {
    op | ((rd as bv32) << 7) | (f3 << 12) | ((rs1 as bv32) << 15) | (imm << 20)
  }

  function PackS(f3: bv32, rs1: Reg, rs2: Reg, imm: bv32): bv32 {
    PackR(0x23, (imm & 31) as bv5, f3, rs1, rs2, (imm >> 5) & 0x7f)
  }

  function PackB(f3: bv32, rs1: Reg, rs2: Reg, imm: bv32): bv32 {
    0x63 | (f3 << 12) | ((rs1 as bv32) << 15) | ((rs2 as bv32) << 20)
    | (((imm >> 11) & 1) << 7) | (((imm >> 1) & 15) << 8) | (((imm >> 5) & 0x3f) << 25) | (((imm >> 12) & 1) << 31)
  }

  function PackU(op: bv32, rd: Reg, imm: bv32): bv32 {
    op | ((rd as bv32) << 7) | imm
  }

  function PackJ(rd: Reg, imm: bv32): bv32 {
    0x6f | ((rd as bv32) << 7)
    | (((imm >> 12) & 0xff) << 12) | (((imm >> 11) & 1) << 20) | (((imm >> 1) & 0x3ff) << 21) | (((imm >> 20) & 1) << 31)
  }

  /** The base 32-bit encoding: opcode map and formats of the RISC-V Unprivileged ISA, chapter 24. */
  function Encode(i: Instr): bv32
    requires Encodable(i)
  {
    match i
    case Lui(rd, imm) => PackU(0x37, rd, imm)
    case Auipc(rd, imm) => PackU(0x17, rd, imm)
    case Jal(rd, offset) => PackJ(rd, offset)
    case Jalr(rd, rs1, offset) => PackI(0x67, rd, 0, rs1, offset)
    case Branch(cond, rs1, rs2, offset) => PackB(CondCode(cond), rs1, rs2, offset)
    case Load(width, signed, rd, rs1, offset) =>
      PackI(0x03, rd, if signed then WidthCode(width) else WidthCode(width) + 4, rs1, offset)
    case Store(width, rs1, rs2, offset) => PackS(WidthCode(width), rs1, rs2, offset)
    case OpImm(op, rd, rs1, imm) => PackI(0x13, rd, AluCode(op), rs1, if op.Sra? then imm | 0x400 else imm)
    case Op(op, rd, rs1, rs2) => PackR(0x33, rd, AluCode(op), rs1, rs2, if op.Sub? || op.Sra? then 0x20 else 0)
    case MulDiv(mop, rd, rs1, rs2) => PackR(0x33, rd, MulCode(mop), rs1, rs2, 1)
    case Lr(rd, rs1) => PackR(0x2f, rd, 2, rs1, 0, 2 << 2)
    case Sc(rd, rs1, rs2) => PackR(0x2f, rd, 2, rs1, rs2, 3 << 2)
    case Amo(aop, rd, rs1, rs2) => PackR(0x2f, rd, 2, rs1, rs2, AmoCode(aop) << 2)
    case Fence => 0x0f
    case Ecall => 0x73
    case Csr(counter, high, rd) =>
      var low := match counter case Cycle => 0 case Time => 1 case Instret => 2;
      PackI(0x73, rd, 2, 0, (if high then 0xC80 else 0xC00) | low)
  }

  lemma FieldsR(op: bv32, rd: Reg, f3: bv32, rs1: Reg, rs2: Reg, f7: bv32)
    requires op < 0x80 && f3 < 8 && f7 < 0x80
    ensures var w := PackR(op, rd, f3, rs1, rs2, f7);
      w & 0x7f == op && Rd(w) == rd && F3(w) == f3 && Rs1(w) == rs1 && Rs2(w) == rs2 && F7(w) == f7
  {
  }

  lemma FieldsI(op: bv32, rd: Reg, f3: bv32, rs1: Reg, imm: bv32)
    requires op < 0x80 && f3 < 8 && Fits(imm, 0x800)
    ensures var w := PackI(op, rd, f3, rs1, imm);
      w & 0x7f == op && Rd(w) == rd && F3(w) == f3 && Rs1(w) == rs1 && ImmI(w) == imm
  {
  }

  lemma FieldsS(f3: bv32, rs1: Reg, rs2: Reg, imm: bv32)
    requires f3 < 8 && Fits(imm, 0x800)
    ensures var w := PackS(f3, rs1, rs2, imm);
      w & 0x7f == 0x23 && F3(w) == f3 && Rs1(w) == rs1 && Rs2(w) == rs2 && ImmS(w) == imm
  {
  }

  lemma FieldsB(f3: bv32, rs1: Reg, rs2: Reg, imm: bv32)
    requires f3 < 8 && Fits(imm, 0x1000) && imm & 1 == 0
    ensures var w := PackB(f3, rs1, rs2, imm);
      w & 0x7f == 0x63 && F3(w) == f3 && Rs1(w) == rs1 && Rs2(w) == rs2 && ImmB(w) == imm
  {
  }

  lemma FieldsJ(rd: Reg, imm: bv32)
    requires Fits(imm, 0x10_0000) && imm & 1 == 0
    ensures var w := PackJ(rd, imm); w & 0x7f == 0x6f && Rd(w) == rd && ImmJ(w) == imm
  {
  }

  lemma FieldsU(op: bv32, rd: Reg, imm: bv32)
    requires op < 0x80 && imm & 0xfff == 0
    ensures var w := PackU(op, rd, imm); w & 0x7f == op && Rd(w) == rd && ImmU(w) == imm
  {
  }

  lemma FieldsShift(rd: Reg, f3: bv32, rs1: Reg, amount: bv32, arithmetic: bool)
    requires f3 < 8 && amount < 32
    ensures var w := PackI(0x13, rd, f3, rs1, if arithmetic then amount | 0x400 else amount);
      && w & 0x7f == 0x13 && Rd(w) == rd && F3(w) == f3 && Rs1(w) == rs1
      && Rs2(w) as bv32 == amount && (w & 0x4000_0000 != 0 <==> arithmetic)
  {
  }

  lemma FieldsCsr(counter: Counter, high: bool, rd: Reg)
    ensures Decode(Encode(Csr(counter, high, rd))) == Csr(counter, high, rd)
  {
  }

  lemma DecodeEncodeLui(rd: Reg, imm: bv32)
    requires imm & 0xfff == 0
    ensures Decode(Encode(Lui(rd, imm))) == Lui(rd, imm)
  {
    FieldsU(0x37, rd, imm);
  }

  lemma DecodeEncodeAuipc(rd: Reg, imm: bv32)
    requires imm & 0xfff == 0
    ensures Decode(Encode(Auipc(rd, imm))) == Auipc(rd, imm)
  {
    FieldsU(0x17, rd, imm);
  }

  lemma DecodeEncodeJal(rd: Reg, offset: bv32)
    requires Encodable(Jal(rd, offset))
    ensures Decode(Encode(Jal(rd, offset))) == Jal(rd, offset)
  {
    FieldsJ(rd, offset);
  }

  lemma DecodeEncodeJalr(rd: Reg, rs1: Reg, offset: bv32)
    requires Encodable(Jalr(rd, rs1, offset))
    ensures Decode(Encode(Jalr(rd, rs1, offset))) == Jalr(rd, rs1, offset)
  {
    FieldsI(0x67, rd, 0, rs1, offset);
  }

  lemma DecodeEncodeBranch(cond: Cond, rs1: Reg, rs2: Reg, offset: bv32)
    requires Encodable(Branch(cond, rs1, rs2, offset))
    ensures Decode(Encode(Branch(cond, rs1, rs2, offset))) == Branch(cond, rs1, rs2, offset)
  {
    hide Rd, F3, Rs1, Rs2, F7, Sext, ImmI, ImmS, ImmB, ImmJ, ImmU, PackR, PackI, PackS, PackB, PackU, PackJ;
    hide Decode, Fits;
    FieldsB(CondCode(cond), rs1, rs2, offset);
    DecodeBranch(Encode(Branch(cond, rs1, rs2, offset)), cond);
  }

  lemma DecodeBranch(w: bv32, cond: Cond)
    requires w & 0x7f == 0x63 && F3(w) == CondCode(cond)
    ensures Decode(w) == Branch(cond, Rs1(w), Rs2(w), ImmB(w))
  {
    hide Rd, F3, Rs1, Rs2, F7, ImmI, ImmS, ImmB, ImmJ, ImmU;
    hide DecodeLoad, DecodeImmediate, DecodeAtomic, DecodeSystem, AluOf, MulOf;
  }

  lemma DecodeEncodeLoad(width: Width, signed: bool, rd: Reg, rs1: Reg, offset: bv32)
    requires Encodable(Load(width, signed, rd, rs1, offset))
    ensures Decode(Encode(Load(width, signed, rd, rs1, offset))) == Load(width, signed, rd, rs1, offset)
  {
    FieldsI(0x03, rd, if signed then WidthCode(width) else WidthCode(width) + 4, rs1, offset);
  }

  lemma DecodeEncodeStore(width: Width, rs1: Reg, rs2: Reg, offset: bv32)
    requires Encodable(Store(width, rs1, rs2, offset))
    ensures Decode(Encode(Store(width, rs1, rs2, offset))) == Store(width, rs1, rs2, offset)
  {
    hide Rd, F3, Rs1, Rs2, F7, Sext, ImmI, ImmS, ImmB, ImmJ, ImmU, PackR, PackI, PackS, PackB, PackU, PackJ;
    hide Fits, DecodeLoad, DecodeImmediate, DecodeAtomic, DecodeSystem, AluOf, MulOf, CondOf;
    FieldsS(WidthCode(width), rs1, rs2, offset);
  }

  lemma DecodeEncodeImmediate(op: AluOp, rd: Reg, rs1: Reg, imm: bv32)
    requires Encodable(OpImm(op, rd, rs1, imm)) && !op.Sll? && !op.Srl? && !op.Sra?
    ensures Decode(Encode(OpImm(op, rd, rs1, imm))) == OpImm(op, rd, rs1, imm)
  {
    hide Rd, F3, Rs1, Rs2, F7, Sext, ImmI, ImmS, ImmB, ImmJ, ImmU, PackR, PackI, PackS, PackB, PackU, PackJ;
    hide Fits, DecodeLoad, DecodeAtomic, DecodeSystem, MulOf, CondOf;
    FieldsI(0x13, rd, AluCode(op), rs1, imm);
  }

  lemma DecodeEncodeShift(op: AluOp, rd: Reg, rs1: Reg, imm: bv32)
    requires Encodable(OpImm(op, rd, rs1, imm)) && (op.Sll? || op.Srl? || op.Sra?)
    ensures Decode(Encode(OpImm(op, rd, rs1, imm))) == OpImm(op, rd, rs1, imm)
  {
    hide Rd, F3, Rs1, Rs2, F7, Sext, ImmI, ImmS, ImmB, ImmJ, ImmU, PackR, PackI, PackS, PackB, PackU, PackJ;
    hide Decode;
    FieldsShift(rd, AluCode(op), rs1, imm, op.Sra?);
    DecodeShift(Encode(OpImm(op, rd, rs1, imm)), op);
  }

  lemma DecodeShift(w: bv32, op: AluOp)
    requires op.Sll? || op.Srl? || op.Sra?
    requires w & 0x7f == 0x13 && F3(w) == AluCode(op) && (w & 0x4000_0000 != 0 <==> op.Sra?)
    ensures Decode(w) == OpImm(op, Rd(w), Rs1(w), Rs2(w) as bv32)
  {
    hide Rd, F3, Rs1, Rs2, F7, ImmI, ImmS, ImmB, ImmJ, ImmU;
    hide DecodeLoad, DecodeAtomic, DecodeSystem, AluOf, MulOf, CondOf;
  }

  lemma DecodeEncodeOp(op: AluOp, rd: Reg, rs1: Reg, rs2: Reg)
    ensures Decode(Encode(Op(op, rd, rs1, rs2))) == Op(op, rd, rs1, rs2)
  {
    hide Rd, F3, Rs1, Rs2, F7, Sext, ImmI, ImmS, ImmB, ImmJ, ImmU, PackR, PackI, PackS, PackB, PackU, PackJ;
    hide DecodeLoad, DecodeImmediate, DecodeAtomic, DecodeSystem, MulOf, CondOf;
    FieldsR(0x33, rd, AluCode(op), rs1, rs2, if op.Sub? || op.Sra? then 0x20 else 0);
  }

  lemma DecodeEncodeMulDiv(mop: MulOp, rd: Reg, rs1: Reg, rs2: Reg)
    ensures Decode(Encode(MulDiv(mop, rd, rs1, rs2))) == MulDiv(mop, rd, rs1, rs2)
  {
    hide Rd, F3, Rs1, Rs2, F7, Sext, ImmI, ImmS, ImmB, ImmJ, ImmU, PackR, PackI, PackS, PackB, PackU, PackJ;
    hide DecodeLoad, DecodeImmediate, DecodeAtomic, DecodeSystem, AluOf, CondOf;
    FieldsR(0x33, rd, MulCode(mop), rs1, rs2, 1);
  }

  lemma DecodeEncodeAmo(aop: AmoOp, rd: Reg, rs1: Reg, rs2: Reg)
    ensures Decode(Encode(Amo(aop, rd, rs1, rs2))) == Amo(aop, rd, rs1, rs2)
  {
    hide Rd, F3, Rs1, Rs2, F7, Sext, ImmI, ImmS, ImmB, ImmJ, ImmU, PackR, PackI, PackS, PackB, PackU, PackJ;
    hide Decode;
    FieldsR(0x2f, rd, 2, rs1, rs2, AmoCode(aop) << 2);
    DecodeAmo(Encode(Amo(aop, rd, rs1, rs2)), aop);
  }

  lemma DecodeAmo(w: bv32, aop: AmoOp)
    requires w & 0x7f == 0x2f && F3(w) == 2 && F7(w) == AmoCode(aop) << 2
    ensures Decode(w) == Amo(aop, Rd(w), Rs1(w), Rs2(w))
  {
    hide Rd, F3, Rs1, Rs2, F7, ImmI, ImmS, ImmB, ImmJ, ImmU;
    hide DecodeLoad, DecodeImmediate, DecodeSystem, AluOf, MulOf, CondOf;
  }

  lemma DecodeEncodeLrSc(rd: Reg, rs1: Reg, rs2: Reg)
    ensures Decode(Encode(Lr(rd, rs1))) == Lr(rd, rs1)
    ensures Decode(Encode(Sc(rd, rs1, rs2))) == Sc(rd, rs1, rs2)
  {
    hide Rd, F3, Rs1, Rs2, F7, Sext, ImmI, ImmS, ImmB, ImmJ, ImmU, PackR, PackI, PackS, PackB, PackU, PackJ;
    hide Decode;
    FieldsR(0x2f, rd, 2, rs1, 0, 8);
    FieldsR(0x2f, rd, 2, rs1, rs2, 12);
    DecodeLrSc(Encode(Lr(rd, rs1)));
    DecodeLrSc(Encode(Sc(rd, rs1, rs2)));
  }

  lemma DecodeLrSc(w: bv32)
    requires w & 0x7f == 0x2f && F3(w) == 2
    ensures F7(w) == 8 && Rs2(w) == 0 ==> Decode(w) == Lr(Rd(w), Rs1(w))
    ensures F7(w) == 12 ==> Decode(w) == Sc(Rd(w), Rs1(w), Rs2(w))
  {
    hide Rd, F3, Rs1, Rs2, F7, ImmI, ImmS, ImmB, ImmJ, ImmU;
    hide DecodeLoad, DecodeImmediate, DecodeSystem, AluOf, MulOf, CondOf;
  }

  lemma DecodeEncodePlain()
    ensures Decode(Encode(Fence)) == Fence && Decode(Encode(Ecall)) == Ecall
  {
    hide Decode;
    DecodePlain(Encode(Fence));
    DecodePlain(Encode(Ecall));
  }

  lemma DecodePlain(w: bv32)
    ensures w == 0x0f ==> Decode(w) == Fence
    ensures w == 0x73 ==> Decode(w) == Ecall
  {
    hide Rd, F3, Rs1, Rs2, F7, ImmI, ImmS, ImmB, ImmJ, ImmU;
    hide DecodeLoad, DecodeImmediate, DecodeAtomic, AluOf, MulOf, CondOf;
  }

  /** Every instruction an assembler can write survives encoding and decoding. */
  lemma DecodeEncode(i: Instr)
    requires Encodable(i)
    ensures Decode(Encode(i)) == i
  {
    hide Decode, Encode, Fits;
    match i
    case Lui(rd, imm) => DecodeEncodeLui(rd, imm);
    case Auipc(rd, imm) => DecodeEncodeAuipc(rd, imm);
    case Jal(rd, offset) => DecodeEncodeJal(rd, offset);
    case Jalr(rd, rs1, offset) => DecodeEncodeJalr(rd, rs1, offset);
    case Branch(cond, rs1, rs2, offset) => DecodeEncodeBranch(cond, rs1, rs2, offset);
    case Load(width, signed, rd, rs1, offset) => DecodeEncodeLoad(width, signed, rd, rs1, offset);
    case Store(width, rs1, rs2, offset) => DecodeEncodeStore(width, rs1, rs2, offset);
    case OpImm(op, rd, rs1, imm) =>
      if op.Sll? || op.Srl? || op.Sra? {
        DecodeEncodeShift(op, rd, rs1, imm);
      } else {
        DecodeEncodeImmediate(op, rd, rs1, imm);
      }
    case Op(op, rd, rs1, rs2) => DecodeEncodeOp(op, rd, rs1, rs2);
    case MulDiv(mop, rd, rs1, rs2) => DecodeEncodeMulDiv(mop, rd, rs1, rs2);
    case Lr(rd, rs1) => DecodeEncodeLrSc(rd, rs1, 0);
    case Sc(rd, rs1, rs2) => DecodeEncodeLrSc(rd, rs1, rs2);
    case Amo(aop, rd, rs1, rs2) => DecodeEncodeAmo(aop, rd, rs1, rs2);
    case Fence => DecodeEncodePlain();
    case Ecall => DecodeEncodePlain();
    case Csr(counter, high, rd) => FieldsCsr(counter, high, rd);
  }
}
