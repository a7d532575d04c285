/** The interpreter's own field arithmetic, instruction by instruction, against the reference semantics. */
module Rows {
  import opened Words
  import opened Isa
  import opened Clock
  import opened Semantics
  import opened Rvc
  import opened Stepping

  // The interpreter's own decoding of compressed fields, shift by shift, against the ISA's bit tables.
  function RawAddi4spn(c: bv32): bv32 {
    (((c >> 7) & 0xf) << 6) | (((c >> 11) & 3) << 4) | (((c >> 5) & 1) << 3) | (((c >> 6) & 1) << 2)
  }

  function RawLw(c: bv32): bv32 {
    (((c >> 5) & 1) << 6) | (((c >> 10) & 7) << 3) | (((c >> 6) & 1) << 2)
  }

  function Raw6(c: bv32): bv32 {
    (((c >> 12) & 1) << 5) | ((c >> 2) & 31)
  }

  function RawJump(c: bv32): bv32 {
    (((c >> 12) & 1) << 11) | (((c >> 8) & 1) << 10) | (((c >> 9) & 3) << 8) | (((c >> 6) & 1) << 7)
    | (((c >> 7) & 1) << 6) | (((c >> 2) & 1) << 5) | (((c >> 11) & 1) << 4) | (((c >> 3) & 7) << 1)
  }

  function RawLui(c: bv32): bv32 {
    (((c >> 12) & 1) << 17) | (((c >> 2) & 31) << 12)
  }

  function RawAddi16sp(c: bv32): bv32 {
    (((c >> 12) & 1) << 9) | (((c >> 4) & 1) << 8) | (((c >> 3) & 1) << 7)
    | (((c >> 5) & 1) << 6) | (((c >> 2) & 1) << 5) | (((c >> 6) & 1) << 4)
  }

  function RawBranch(c: bv32): bv32 {
    (((c >> 12) & 1) << 8) | (((c >> 5) & 3) << 6) | (((c >> 2) & 1) << 5)
    | (((c >> 10) & 3) << 3) | (((c >> 3) & 3) << 1)
  }

  function RawLwsp(c: bv32): bv32 {
    (((c >> 2) & 3) << 6) | (((c >> 12) & 1) << 5) | (((c >> 4) & 7) << 2)
  }

  function RawSwsp(c: bv32): bv32 {
    (((c >> 7) & 3) << 6) | (((c >> 9) & 15) << 2)
  }

  lemma RawAddi4spnIs(c: bv32)
    ensures RawAddi4spn(c) == ImmAddi4spn(c)
  {
  }

  lemma RawLwIs(c: bv32)
    ensures RawLw(c) == ImmLw(c)
  {
  }

  lemma Raw6Is(c: bv32)
    ensures Raw6(c) == Imm6(c)
  {
  }

  lemma RawJumpIs(c: bv32)
    ensures Sext(RawJump(c), 0x800) == ImmJump(c)
  {
  }

  lemma RawLuiIs(c: bv32)
    ensures Sext(RawLui(c), 0x2_0000) == Sext(Imm6(c), 0x20) << 12
  {
  }

  lemma RawAddi16spIs(c: bv32)
    ensures Sext(RawAddi16sp(c), 0x200) == ImmAddi16sp(c)
  {
  }

  lemma RawBranchIs(c: bv32)
    ensures Sext(RawBranch(c), 0x100) == ImmBranch(c)
  {
  }

  lemma RawLwspIs(c: bv32)
    ensures RawLwsp(c) == ImmLwsp(c)
  {
  }

  lemma RawSwspIs(c: bv32)
    ensures RawSwsp(c) == ImmSwsp(c)
  {
  }

  /** A compressed instruction without an exception of its own has the effect of its listing. */
  lemma PlainRow(env: Env, m: Machine, c: bv32, i: Instr)
    requires Listing(c) == i && !WideShift(i) && !LinkClobbers(i) && !i.Load? && !i.Store?
    ensures Exec16(env, m, c) == Execute(m, i, 2)
  {
    hide Listing, Execute;
  }

  lemma LoadRow(env: Env, m: Machine, c: bv32, rd: Isa.Reg, rs1: Isa.Reg, offset: bv32)
    requires Listing(c) == Load(Word, true, rd, rs1, offset)
    ensures var a := U32(RegAt(m, rs1) + Value(offset));
      var m1 := Write(m, rd, WordAt(m, a));
      Exec16(env, m, c) == if WordMapped(m, a) then Finish(m1, U32(m.pc + 2), LoadTime) else Trapped(Silent, m1)
  {
    hide Listing, WordAt, WordMapped, Write, RegAt, U32, Value;
  }

  lemma StoreRow(env: Env, m: Machine, c: bv32, rs1: Isa.Reg, rs2: Isa.Reg, offset: bv32)
    requires Listing(c) == Store(Word, rs1, rs2, offset)
    ensures var a := U32(RegAt(m, rs1) + Value(offset));
      Exec16(env, m, c) ==
        if Writable(m, Word, a) then Finish(Stored(m, Word, a, RegAt(m, rs2)), U32(m.pc + 2), StoreTime)
        else Trapped(Silent, m)
  {
    hide Listing, Writable, Stored, RegAt, U32, Value;
  }

  lemma OpImmRow(env: Env, m: Machine, c: bv32, op: AluOp, rd: Isa.Reg, rs1: Isa.Reg, imm: bv32)
    requires Listing(c) == OpImm(op, rd, rs1, imm) && !op.Sll? && !op.Srl? && !op.Sra?
    ensures Exec16(env, m, c) == Finish(Write(m, rd, Alu(op, RegAt(m, rs1), Value(imm))), U32(m.pc + 2), AluTime)
  {
    hide Listing, Alu, Finish, Write, RegAt;
  }

  lemma ShiftImmRow(env: Env, m: Machine, c: bv32, op: AluOp, rd: Isa.Reg, rs1: Isa.Reg, imm: bv32)
    requires Listing(c) == OpImm(op, rd, rs1, imm) && (op.Sll? || op.Srl? || op.Sra?)
    ensures Exec16(env, m, c) ==
      Finish(Write(m, rd, CShift(env, op, RegAt(m, rs1), imm)), U32(m.pc + 2), ShiftTime)
  {
    hide Listing, Alu, Finish, Write, RegAt;
  }

  /** A C++ shift by `n`, whatever the compiler makes of one by 32 or more. */
  function CShift(env: Env, op: AluOp, a: uint32, n: bv32): uint32 {
    if n >= 32 then env.wideShift(op, a, n) else Alu(op, a, Value(n))
  }

  lemma Addi4spnRow(env: Env, m: Machine, c: bv32)
    requires c & 3 == 0 && c >> 13 == 0
    ensures Exec16(env, m, c) ==
      if RawAddi4spn(c) == 0 then Trapped(IllegalAddi4spn, m)
      else Finish(Write(m, PrimeLow(c), U32(RegAt(m, 2) + Value(RawAddi4spn(c)))), U32(m.pc + 2), AluTime)
  {
    hide Exec16, Bit, Value, Finish, Write;
    RawAddi4spnIs(c);
    if RawAddi4spn(c) == 0 { PlainRow(env, m, c, Illegal(IllegalAddi4spn)); }
    else { OpImmRow(env, m, c, Add, PrimeLow(c), 2, RawAddi4spn(c)); }
  }

  lemma LwRow(env: Env, m: Machine, c: bv32)
    requires c & 3 == 0 && c >> 13 == 2
    ensures var a := U32(RegAt(m, PrimeHigh(c)) + Value(RawLw(c)));
      var m1 := Write(m, PrimeLow(c), WordAt(m, a));
      Exec16(env, m, c) == if WordMapped(m, a) then Finish(m1, U32(m.pc + 2), LoadTime) else Trapped(Silent, m1)
  {
    hide Exec16, Bit, Value, Finish, Write, WordAt, WordMapped;
    RawLwIs(c);
    LoadRow(env, m, c, PrimeLow(c), PrimeHigh(c), RawLw(c));
  }

  lemma SwRow(env: Env, m: Machine, c: bv32)
    requires c & 3 == 0 && c >> 13 == 6
    ensures var a := U32(RegAt(m, PrimeHigh(c)) + Value(RawLw(c)));
      Exec16(env, m, c) ==
        if Writable(m, Word, a) then Finish(Stored(m, Word, a, RegAt(m, PrimeLow(c))), U32(m.pc + 2), StoreTime)
        else Trapped(Silent, m)
  {
    hide Exec16, Bit, Value, Finish, Stored, Writable;
    RawLwIs(c);
    StoreRow(env, m, c, PrimeHigh(c), PrimeLow(c), RawLw(c));
  }

  lemma Illegal0Row(env: Env, m: Machine, c: bv32)
    requires c & 3 == 0 && c >> 13 != 0 && c >> 13 != 2 && c >> 13 != 6
    ensures Exec16(env, m, c) == Trapped(UnsupportedC, m)
  {
    hide Exec16;
    PlainRow(env, m, c, Illegal(UnsupportedC));
  }

  lemma AddiRow(env: Env, m: Machine, c: bv32)
    requires c & 3 == 1 && c >> 13 == 0
    ensures Exec16(env, m, c) ==
      Finish(Write(m, RegHigh(c), U32(RegAt(m, RegHigh(c)) + Value(Sext(Raw6(c), 0x20)))), U32(m.pc + 2), AluTime)
  {
    hide Exec16, Bit, Value, Finish, Write, Sext;
    Raw6Is(c);
    OpImmRow(env, m, c, Add, RegHigh(c), RegHigh(c), Sext(Raw6(c), 0x20));
  }

  lemma JumpRow(env: Env, m: Machine, c: bv32)
    requires c & 3 == 1 && (c >> 13 == 1 || c >> 13 == 5)
    ensures Exec16(env, m, c) ==
      Finish(if c >> 13 == 1 then Write(m, 1, U32(m.pc + 2)) else m,
             U32(m.pc + Value(Sext(RawJump(c), 0x800))), JumpTime)
  {
    hide Exec16, Bit, Value, Finish, Sext;
    RawJumpIs(c);
    PlainRow(env, m, c, Jal(if c >> 13 == 1 then 1 else 0, ImmJump(c)));
  }

  lemma LiRow(env: Env, m: Machine, c: bv32)
    requires c & 3 == 1 && c >> 13 == 2
    ensures Exec16(env, m, c) ==
      Finish(Write(m, RegHigh(c), Value(Sext(Raw6(c), 0x20))), U32(m.pc + 2), AluTime)
  {
    hide Exec16, Bit, Value, Finish, Write, Sext, Alu, Value;
    Raw6Is(c);
    OpImmRow(env, m, c, Add, RegHigh(c), 0, Sext(Raw6(c), 0x20));
    AddZero(m, Value(Sext(Raw6(c), 0x20)));
  }

  lemma AddZero(m: Machine, v: uint32)
    ensures Alu(Add, RegAt(m, 0), v) == v
  {
  }

  lemma LuiRow(env: Env, m: Machine, c: bv32)
    requires c & 3 == 1 && c >> 13 == 3
    ensures Exec16(env, m, c) ==
      Finish(if RegHigh(c) == 2 then Write(m, 2, U32(RegAt(m, 2) + Value(Sext(RawAddi16sp(c), 0x200))))
             else Write(m, RegHigh(c), Value(Sext(RawLui(c), 0x2_0000))),
             U32(m.pc + 2), AluTime)
  {
    hide Exec16, Bit, Value, Finish, Write, Sext;
    RawAddi16spIs(c);
    RawLuiIs(c);
    if RegHigh(c) == 2 { OpImmRow(env, m, c, Add, 2, 2, ImmAddi16sp(c)); }
    else { PlainRow(env, m, c, Lui(RegHigh(c), Sext(Imm6(c), 0x20) << 12)); }
  }

  lemma ShiftRow(env: Env, m: Machine, c: bv32)
    requires c & 3 == 1 && c >> 13 == 4 && (c >> 10) & 3 < 2
    ensures var d, op := PrimeHigh(c), if (c >> 10) & 3 == 0 then Srl else Sra;
      Exec16(env, m, c) ==
        Finish(Write(m, d, CShift(env, op, RegAt(m, d), Raw6(c))), U32(m.pc + 2), ShiftTime)
  {
    hide Exec16, Bit, Value, Finish, Write, Sext, CShift;
    Raw6Is(c);
    ShiftImmRow(env, m, c, if (c >> 10) & 3 == 0 then Srl else Sra, PrimeHigh(c), PrimeHigh(c), Raw6(c));
  }

  lemma AndiRow(env: Env, m: Machine, c: bv32)
    requires c & 3 == 1 && c >> 13 == 4 && (c >> 10) & 3 == 2
    ensures var d := PrimeHigh(c);
      Exec16(env, m, c) ==
        Finish(Write(m, d, And32(RegAt(m, d), Value(Sext(Raw6(c), 0x20)))), U32(m.pc + 2), AluTime)
  {
    hide Exec16, Bit, Value, Finish, Write, Sext, And32, RegAt, U32;
    Raw6Is(c);
    OpImmRow(env, m, c, And, PrimeHigh(c), PrimeHigh(c), Sext(Raw6(c), 0x20));
  }

  function RawFn(c: bv32): bv32 {
    (((c >> 12) & 1) << 2) | ((c >> 5) & 3)
  }

  lemma RawFnIs(c: bv32)
    ensures RawFn(c) >= 4 <==> c & 0x1000 != 0
    ensures RawFn(c) < 4 ==> RawFn(c) == (c >> 5) & 3
  {
  }

  lemma ArithmeticRow(env: Env, m: Machine, c: bv32)
    requires c & 3 == 1 && c >> 13 == 4 && (c >> 10) & 3 == 3
    ensures var d, fn := PrimeHigh(c), RawFn(c);
      var a, b := RegAt(m, d), RegAt(m, PrimeLow(c));
      Exec16(env, m, c) ==
        if fn >= 4 then Trapped(Rv64Only, m)
        else Finish(Write(m, d, if fn == 0 then U32(a - b) else if fn == 1 then Xor32(a, b)
                                else if fn == 2 then Or32(a, b) else And32(a, b)),
                    U32(m.pc + 2), AluTime)
  {
    hide Exec16, Bit, Value, Finish, Write, And32, Or32, Xor32;
    RawFnIs(c);
    var fn := RawFn(c);
    PlainRow(env, m, c, if fn >= 4 then Illegal(Rv64Only)
                        else Op(if fn == 0 then Sub else if fn == 1 then Xor else if fn == 2 then Or else And,
                                PrimeHigh(c), PrimeHigh(c), PrimeLow(c)));
  }

  lemma BranchRow(env: Env, m: Machine, c: bv32)
    requires c & 3 == 1 && (c >> 13 == 6 || c >> 13 == 7)
    ensures Exec16(env, m, c) ==
      if (RegAt(m, PrimeHigh(c)) == 0) == (c >> 13 == 6) then
        Finish(m, U32(m.pc + Value(Sext(RawBranch(c), 0x100))), TakenTime)
      else Finish(m, U32(m.pc + 2), NotTakenTime)
  {
    hide Exec16, Bit, Value, Finish, Sext;
    RawBranchIs(c);
    PlainRow(env, m, c, Branch(if c >> 13 == 6 then Eq else Ne, PrimeHigh(c), 0, ImmBranch(c)));
  }

  lemma SlliRow(env: Env, m: Machine, c: bv32)
    requires c & 3 == 2 && c >> 13 == 0
    ensures Exec16(env, m, c) ==
      Finish(Write(m, RegHigh(c), CShift(env, Sll, RegAt(m, RegHigh(c)), Raw6(c))), U32(m.pc + 2), ShiftTime)
  {
    hide Exec16, Bit, Value, Finish, Write, CShift;
    Raw6Is(c);
    ShiftImmRow(env, m, c, Sll, RegHigh(c), RegHigh(c), Raw6(c));
  }

  lemma LwspRow(env: Env, m: Machine, c: bv32)
    requires c & 3 == 2 && c >> 13 == 2
    ensures var a := U32(RegAt(m, 2) + Value(RawLwsp(c)));
      var m1 := Write(m, RegHigh(c), WordAt(m, a));
      Exec16(env, m, c) == if WordMapped(m, a) then Finish(m1, U32(m.pc + 2), LoadTime) else Trapped(Silent, m1)
  {
    hide Exec16, Bit, Value, Finish, Write, WordAt, WordMapped;
    RawLwspIs(c);
    LoadRow(env, m, c, RegHigh(c), 2, RawLwsp(c));
  }

  /** C.JR and C.MV. */
  lemma MoveRow(env: Env, m: Machine, c: bv32)
    requires c & 3 == 2 && c >> 13 == 4 && (c >> 12) & 1 == 0
    ensures Exec16(env, m, c) ==
      if RegLow(c) == 0 then Finish(m, Even(RegAt(m, RegHigh(c))), JumpTime)
      else Finish(Write(m, RegHigh(c), RegAt(m, RegLow(c))), U32(m.pc + 2), AluTime)
  {
    hide Exec16, Finish, RegHigh, RegLow;
    Bit12(c);
    PlainRow(env, m, c, if RegLow(c) == 0 then Jalr(0, RegHigh(c), 0) else Op(Add, RegHigh(c), 0, RegLow(c)));
  }

  lemma Bit12(c: bv32)
    ensures (c >> 12) & 1 == 0 <==> c & 0x1000 == 0
  {
  }

  /** C.EBREAK, C.JALR and C.ADD: the jump reads its target after the link is written. */
  lemma AddRow(env: Env, m: Machine, c: bv32)
    requires c & 3 == 2 && c >> 13 == 4 && (c >> 12) & 1 != 0
    ensures var rd, rs2, linked := RegHigh(c), RegLow(c), Write(m, 1, U32(m.pc + 2));
      Exec16(env, m, c) ==
        if rs2 != 0 then Finish(Write(m, rd, U32(RegAt(m, rd) + RegAt(m, rs2))), U32(m.pc + 2), AluTime)
        else if rd == 0 then Trapped(Breakpoint, m)
        else Finish(linked, Even(RegAt(linked, rd)), JumpTime)
  {
    hide Finish, RegHigh, RegLow, Exec16, Listing;
    AddListing(c);
    var rd, rs2 := RegHigh(c), RegLow(c);
    if rs2 != 0 { PlainRow(env, m, c, Op(Add, rd, rd, rs2)); }
    else if rd == 0 { PlainRow(env, m, c, Illegal(Breakpoint)); }
    else if rd != 1 { PlainRow(env, m, c, Jalr(1, rd, 0)); }
    else { ClobberRow(env, m, c); }
  }

  lemma AddListing(c: bv32)
    requires c & 3 == 2 && c >> 13 == 4 && (c >> 12) & 1 != 0
    ensures Listing(c) ==
      if RegLow(c) != 0 then Op(Add, RegHigh(c), RegHigh(c), RegLow(c))
      else if RegHigh(c) == 0 then Illegal(Breakpoint)
      else Jalr(1, RegHigh(c), 0)
  {
    hide RegHigh, RegLow;
    Bit12(c);
  }

  lemma ClobberRow(env: Env, m: Machine, c: bv32)
    requires LinkClobbers(Listing(c))
    ensures var linked := Write(m, 1, U32(m.pc + 2));
      Exec16(env, m, c) == Finish(linked, Even(RegAt(linked, 1)), JumpTime)
  {
    hide Listing, Finish, U32, Even;
  }

  lemma SwspRow(env: Env, m: Machine, c: bv32)
    requires c & 3 == 2 && c >> 13 == 6
    ensures var a := U32(RegAt(m, 2) + Value(RawSwsp(c)));
      Exec16(env, m, c) ==
        if Writable(m, Word, a) then Finish(Stored(m, Word, a, RegAt(m, RegLow(c))), U32(m.pc + 2), StoreTime)
        else Trapped(Silent, m)
  {
    hide Exec16, Bit, Value, Finish, Stored, Writable;
    RawSwspIs(c);
    StoreRow(env, m, c, 2, RegLow(c), RawSwsp(c));
  }

  lemma Illegal2Row(env: Env, m: Machine, c: bv32)
    requires c & 3 == 2 && c >> 13 != 0 && c >> 13 != 2 && c >> 13 != 4 && c >> 13 != 6
    ensures Exec16(env, m, c) == Trapped(UnsupportedC, m)
  {
    hide Exec16;
    PlainRow(env, m, c, Illegal(UnsupportedC));
  }

  lemma BranchRow32(m: Machine, w: bv32)
    requires w & 0x7f == 0x63
    ensures Exec32(m, w) ==
      if F3(w) == 2 || F3(w) == 3 then Trapped(BadBranch, m)
      else if Taken(CondOf(F3(w)), RegAt(m, Rs1(w)), RegAt(m, Rs2(w))) then
        Finish(m, U32(m.pc + Value(ImmB(w))), TakenTime)
      else Finish(m, U32(m.pc + 4), NotTakenTime)
  {
    hide F3, Rs1, Rs2, ImmB, Value, Taken, Finish, U32, RegAt, CondOf;
  }

  /** Sign extension of a loaded value whose sign bit is worth `sign`. */
  function SignExtended(v: uint32, sign: uint32): uint32 {
    if v >= sign then U32(v - 2 * sign) else v
  }

  lemma LoadRow32(m: Machine, w: bv32)
    requires w & 0x7f == 0x03
    ensures var f3, a := F3(w), U32(RegAt(m, Rs1(w)) + Value(ImmI(w)));
      var ok := if f3 == 0 || f3 == 4 then Mapped(m, a) else if f3 == 2 then WordMapped(m, a) else HalfMapped(m, a);
      var v := if f3 == 0 then SignExtended(ByteAt(m, a), 0x80) else if f3 == 1 then SignExtended(HalfAt(m, a), 0x8000)
        else if f3 == 2 then WordAt(m, a) else if f3 == 4 then ByteAt(m, a) else HalfAt(m, a);
      Exec32(m, w) ==
        if f3 == 3 || f3 == 6 || f3 == 7 then Trapped(BadLoad, m)
        else if !ok then Trapped(LoadFault, m)
        else Finish(Write(m, Rd(w), v), U32(m.pc + 4), LoadTime)
  {
    hide Rs1, Rd, ImmI, Value, Finish, RegAt, Write, ByteAt, HalfAt, WordAt, Mapped, HalfMapped, WordMapped;
    ThreeBits(w);
  }

  lemma ThreeBits(w: bv32)
    ensures F3(w) < 8
  {
  }

  lemma StoreRow32(m: Machine, w: bv32)
    requires w & 0x7f == 0x23
    ensures var f3, a, b := F3(w), U32(RegAt(m, Rs1(w)) + Value(ImmS(w))), RegAt(m, Rs2(w));
      var width := if f3 == 0 then Byte else if f3 == 1 then Half else Word;
      Exec32(m, w) ==
        if f3 > 2 then Trapped(BadStore, m)
        else if !Writable(m, width, a) then Trapped(StoreFault, m)
        else Finish(Stored(m, width, a, b), U32(m.pc + 4), StoreTime)
  {
    hide F3, Rs1, Rs2, ImmS, Value, Finish, RegAt, Writable, Stored, U32;
  }

  lemma ShiftAmount(w: bv32)
    ensures (w >> 20) & 31 == Rs2(w) as bv32 && (w >> 20) & 31 < 32
    ensures (w >> 20) & 0x400 != 0 <==> w & 0x4000_0000 != 0
  {
  }

  lemma SmallValue(v: bv32)
    requires v < 32
    ensures Value(v) % 32 == Value(v)
  {
  }

  lemma OpImmRow32(m: Machine, w: bv32)
    requires w & 0x7f == 0x13
    ensures F3(w) < 8
    ensures var a, imm, n, f3 := RegAt(m, Rs1(w)), Value(ImmI(w)), Value((w >> 20) & 31), F3(w);
      var v := if f3 == 0 then U32(a + imm) else if f3 == 1 then ShiftLeft(a, n)
        else if f3 == 2 then if Signed(a) < Signed(imm) then 1 else 0
        else if f3 == 3 then if a < imm then 1 else 0
        else if f3 == 4 then Xor32(a, imm)
        else if f3 == 5 then
          if (w >> 20) & 0x400 != 0 then ShiftArithmetic(a, n) else ShiftRight(a, n)
        else if f3 == 6 then Or32(a, imm) else And32(a, imm);
      Exec32(m, w) == Finish(Write(m, Rd(w), v), U32(m.pc + 4), if f3 == 1 || f3 == 5 then ShiftTime else AluTime)
  {
    hide Rs1, Rd, Rs2, ImmI, Value, Finish, Write, RegAt, U32, Signed, And32, Or32, Xor32, ShiftLeft, ShiftRight,
         ShiftArithmetic;
    ShiftAmount(w);
    SmallValue((w >> 20) & 31);
    ThreeBits(w);
  }

  lemma MulDivRow32(m: Machine, w: bv32)
    requires w & 0x7f == 0x33 && F7(w) == 1
    ensures F3(w) < 8
    ensures Exec32(m, w) ==
      Finish(Write(m, Rd(w), MulDivide(MulOf(F3(w)), RegAt(m, Rs1(w)), RegAt(m, Rs2(w)))), U32(m.pc + 4),
             if F3(w) <= 3 then MultiplyTime else DivideTime)
  {
    hide Rs1, Rd, Rs2, Finish, Write, RegAt, U32, MulDivide;
    ThreeBits(w);
  }

  lemma OpRow32(m: Machine, w: bv32)
    requires w & 0x7f == 0x33 && F7(w) != 1
    ensures F3(w) < 8
    ensures Exec32(m, w) ==
      Finish(Write(m, Rd(w), Alu(AluOf(F3(w), F7(w) == 0x20), RegAt(m, Rs1(w)), RegAt(m, Rs2(w)))), U32(m.pc + 4),
             if F3(w) == 1 || F3(w) == 5 then ShiftTime else AluTime)
  {
    hide Rs1, Rd, Rs2, Finish, Write, RegAt, U32, Alu;
    ThreeBits(w);
  }

  function CsrCounter(csr: bv32): Counter {
    if csr == 0xC00 || csr == 0xC80 then Cycle else if csr == 0xC01 || csr == 0xC81 then Time else Instret
  }

  lemma SystemRow32(m: Machine, w: bv32)
    requires w & 0x7f == 0x73
    ensures F3(w) < 8
    ensures var csr, f3 := (w >> 20) & 0xfff, F3(w);
      var low := csr == 0xC00 || csr == 0xC01 || csr == 0xC02;
      var high := csr == 0xC80 || csr == 0xC81 || csr == 0xC82;
      var v := CounterValue(m, CsrCounter(csr));
      Exec32(m, w) ==
        if w == 0x73 then Finish(m, RETURN_SENTINEL, CsrTime)
        else if w == 0x10_0073 then Trapped(Breakpoint, m)
        else if !low && !high then Trapped(UnsupportedCsr, m)
        else if !(f3 == 2 || f3 == 3 || f3 == 6 || f3 == 7) || Rs1(w) != 0 then Trapped(ReadOnlyCsr, m)
        else Finish(Write(m, Rd(w), if high then v / TWO32 else v % TWO32), U32(m.pc + 4), CsrTime)
  {
    hide Rs1, Rd, F3, Finish, Write, U32, CounterValue, DecodeSystem;
    ThreeBits(w);
    TwelveBits(w);
    SystemDecoded(w);
    assert Decode(w) == DecodeSystem(w);
  }

  lemma SystemDecoded(w: bv32)
    requires F3(w) < 8
    ensures var csr, f3 := w >> 20, F3(w);
      var low := csr == 0xC00 || csr == 0xC01 || csr == 0xC02;
      var high := csr == 0xC80 || csr == 0xC81 || csr == 0xC82;
      DecodeSystem(w) ==
        if w == 0x73 then Ecall
        else if w == 0x10_0073 then Illegal(Breakpoint)
        else if !low && !high then Illegal(UnsupportedCsr)
        else if !(f3 == 2 || f3 == 3 || f3 == 6 || f3 == 7) || Rs1(w) != 0 then Illegal(ReadOnlyCsr)
        else Csr(CsrCounter(csr), high, Rd(w))
  {
    hide Rs1, Rd, F3;
  }

  lemma TwelveBits(w: bv32)
    ensures (w >> 20) & 0xfff == w >> 20
  {
  }

  function Funct5(w: bv32): bv32 {
    (w >> 27) & 31
  }

  /** The read-modify-write operation a function code selects. */
  function RmwOf(funct5: bv32): Option<AmoOp> {
    if funct5 == 1 then Some(Swap)
    else if funct5 == 0 then Some(AmoAdd)
    else if funct5 == 4 then Some(AmoXor)
    else if funct5 == 12 then Some(AmoAnd)
    else if funct5 == 8 then Some(AmoOr)
    else if funct5 == 16 then Some(AmoMin)
    else if funct5 == 20 then Some(AmoMax)
    else if funct5 == 24 then Some(AmoMinu)
    else if funct5 == 28 then Some(AmoMaxu)
    else None
  }

  /** SC.W traps only when the store it is entitled to is refused. */
  predicate ScSucceeds(m: Machine, a: uint32) {
    m.reserved && m.reservation == a ==> Writable(m, Word, a)
  }

  function AfterSc(m: Machine, a: uint32, b: uint32, rd: Isa.Reg): Machine {
    if !(m.reserved && m.reservation == a) then Write(m.(reserved := false), rd, 1)
    else Write(if Writable(m, Word, a) then Stored(m, Word, a, b) else m.(reserved := false), rd, 0)
  }

  lemma Funct5Is(w: bv32)
    ensures F7(w) >> 2 == Funct5(w)
  {
  }

  lemma AtomicDecoding(w: bv32)
    requires F3(w) == 2
    ensures var f5, rmw := Funct5(w), RmwOf(Funct5(w));
      DecodeAtomic(w) ==
        if f5 == 2 then if Rs2(w) != 0 then BadAtomic(IllegalLr, Rs1(w)) else Lr(Rd(w), Rs1(w))
        else if f5 == 3 then Sc(Rd(w), Rs1(w), Rs2(w))
        else if rmw.Some? then Amo(rmw.value, Rd(w), Rs1(w), Rs2(w))
        else BadAtomic(UnsupportedAtomic, Rs1(w))
  {
    hide F3, F7, Rd, Rs1, Rs2, Funct5;
    Funct5Is(w);
  }

  lemma LrOutcome(m: Machine, rd: Isa.Reg, rs1: Isa.Reg, next: uint32)
    ensures var a := RegAt(m, rs1);
      ExecuteAtomic(m, Lr(rd, rs1), next) ==
        if !WordMapped(m, a) then Trapped(AtomicFault, m)
        else Finish(Write(m.(reserved := true, reservation := a), rd, WordAt(m, a)), next, AtomicTime)
  {
    hide WordAt, WordMapped, Write, Finish, RegAt;
  }

  lemma ScOutcome(m: Machine, rd: Isa.Reg, rs1: Isa.Reg, rs2: Isa.Reg, next: uint32)
    ensures var a, b := RegAt(m, rs1), RegAt(m, rs2);
      ExecuteAtomic(m, Sc(rd, rs1, rs2), next) ==
        if !WordMapped(m, a) then Trapped(AtomicFault, m)
        else if ScSucceeds(m, a) then Finish(AfterSc(m, a, b, rd), next, AtomicTime)
        else Trapped(AtomicStoreFault, AfterSc(m, a, b, rd))
  {
    hide WordAt, WordMapped, Write, Finish, RegAt, Stored, Writable;
  }

  lemma RmwOutcome(m: Machine, op: AmoOp, rd: Isa.Reg, rs1: Isa.Reg, rs2: Isa.Reg, next: uint32)
    ensures var a, b := RegAt(m, rs1), RegAt(m, rs2);
      var word := WordAt(m, a);
      ExecuteAtomic(m, Amo(op, rd, rs1, rs2), next) ==
        if !WordMapped(m, a) then Trapped(AtomicFault, m)
        else if Writable(m, Word, a) then
          Finish(Write(Stored(m, Word, a, AmoResult(op, word, b)), rd, word), next, AtomicTime)
        else Trapped(AtomicStoreFault, Write(m, rd, word))
  {
    hide WordAt, WordMapped, Write, Finish, RegAt, Stored, Writable, AmoResult;
  }

  lemma BadOutcome(m: Machine, trap: Trap, rs1: Isa.Reg, next: uint32)
    ensures ExecuteAtomic(m, BadAtomic(trap, rs1), next) ==
        if !WordMapped(m, RegAt(m, rs1)) then Trapped(AtomicFault, m) else Trapped(trap, m)
  {
    hide WordAt, WordMapped, RegAt;
  }

  lemma AtomicRow32(m: Machine, w: bv32)
    requires w & 0x7f == 0x2f
    ensures var f5, rmw, a, next := Funct5(w), RmwOf(Funct5(w)), RegAt(m, Rs1(w)), U32(m.pc + 4);
      var word, b := WordAt(m, a), RegAt(m, Rs2(w));
      Exec32(m, w) ==
        if F3(w) != 2 then Trapped(IllegalAtomic, m)
        else if !WordMapped(m, a) then Trapped(AtomicFault, m)
        else if f5 == 2 then
          if Rs2(w) != 0 then Trapped(IllegalLr, m)
          else Finish(Write(m.(reserved := true, reservation := a), Rd(w), word), next, AtomicTime)
        else if f5 == 3 then
          if ScSucceeds(m, a) then Finish(AfterSc(m, a, b, Rd(w)), next, AtomicTime)
          else Trapped(AtomicStoreFault, AfterSc(m, a, b, Rd(w)))
        else if rmw.Some? then
          if Writable(m, Word, a) then
            Finish(Write(Stored(m, Word, a, AmoResult(rmw.value, word, b)), Rd(w), word), next, AtomicTime)
          else Trapped(AtomicStoreFault, Write(m, Rd(w), word))
        else Trapped(UnsupportedAtomic, m)
  {
    hide F3, F7, Rd, Rs1, Rs2, Funct5, RmwOf, Decode, DecodeAtomic, WordAt, WordMapped, Writable, Stored, Write,
         Finish, AmoResult, U32, RegAt;
    hide ExecuteAtomic, ScSucceeds, AfterSc;
    NonAtomic(w);
    if F3(w) == 2 {
      AtomicDecoding(w);
      var rmw, rd, rs1, rs2, next := RmwOf(Funct5(w)), Rd(w), Rs1(w), Rs2(w), U32(m.pc + 4);
      LrOutcome(m, rd, rs1, next);
      ScOutcome(m, rd, rs1, rs2, next);
      if rmw.Some? { RmwOutcome(m, rmw.value, rd, rs1, rs2, next); }
      BadOutcome(m, IllegalLr, rs1, next);
      BadOutcome(m, UnsupportedAtomic, rs1, next);
    }
  }

  lemma NonAtomic(w: bv32)
    requires w & 0x7f == 0x2f
    ensures Decode(w) == DecodeAtomic(w)
    ensures F3(w) != 2 ==> DecodeAtomic(w) == Illegal(IllegalAtomic)
  {
  }

  predicate SupportedOpcode(op: bv32) {
    || op == 0x37 || op == 0x17 || op == 0x6f || op == 0x67 || op == 0x63 || op == 0x03
    || op == 0x23 || op == 0x13 || op == 0x33 || op == 0x2f || op == 0x0f || op == 0x73
  }

  function JalrTarget(m: Machine, w: bv32): uint32 {
    Even(U32(RegAt(m, Rs1(w)) + Value(ImmI(w))))
  }

  /** The opcodes the interpreter completes in its own switch. */
  lemma OtherRow32(m: Machine, w: bv32)
    ensures var op, rd, next := w & 0x7f, Rd(w), U32(m.pc + 4);
      && (op == 0x37 ==> Exec32(m, w) == Finish(Write(m, rd, Value(ImmU(w))), next, AluTime))
      && (op == 0x17 ==> Exec32(m, w) == Finish(Write(m, rd, U32(m.pc + Value(ImmU(w)))), next, AluTime))
      && (op == 0x6f ==> Exec32(m, w) == Finish(Write(m, rd, next), U32(m.pc + Value(ImmJ(w))), JumpTime))
      && (op == 0x67 ==> Exec32(m, w) == Finish(Write(m, rd, next), JalrTarget(m, w), JumpTime))
      && (op == 0x0f ==> Exec32(m, w) == Finish(m, next, FenceTime))
      && (!SupportedOpcode(op) ==> Exec32(m, w) == Trapped(UnsupportedOpcode, m))
  {
    hide Rd, Rs1, ImmU, ImmJ, ImmI, Value, Write, Finish, U32, RegAt, Even;
  }
}
