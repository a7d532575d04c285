/** The interpreter object: registers, guest memory and counters updated in place, instruction by instruction. */
module Cpu {
  import opened Words
  import opened Isa
  import opened Clock
  import opened Semantics
  import opened Rvc
  import opened Stepping
  import opened Frames
  import opened Trace
  import opened Rows

  class Rv32Cpu {
    const env: Env
    const x: array<uint32>
    var pc: uint32
    var base: uint32
    var mem: array<uint8>
    var reserved: bool
    var reservation: uint32
    var retired: uint64
    var cycles: uint64
    var mode: Mode
    var input: uint32
    var host: seq<uint8>
    const trace: InstructionTrace

    ghost predicate Valid()
      reads this, x
    {
      x.Length == 32 && x[0] == 0 && x as object != mem && trace.ring != x && trace.ring as object != mem
    }

    /** The machine this object holds. */
    function M(): Machine
      requires Valid()
      reads this, x, mem
    {
      State(x[..], pc, base, mem[..], reserved, reservation, retired, cycles, mode, input, host)
    }

    /** How a method that returned `trap` has left this object: the source's return value and error string. */
    ghost function Result(trap: Option<Trap>): Outcome
      requires Valid()
      reads this, x, mem
    {
      match trap case None => Done(M()) case Some(t) => Trapped(t, M())
    }

    constructor (env: Env)
      ensures Valid() && trace.Valid() && this.env == env && mode == Accurate
      ensures fresh(x) && fresh(mem) && fresh(trace) && fresh(trace.ring)
    {
      this.env := env;
      x := new uint32[32](_ => 0);
      mem := new uint8[0];
      trace := new InstructionTrace();
      pc, base, reserved, reservation, retired, cycles, mode, input, host := 0, 0, false, 0, 0, 0, Accurate, 0, [];
    }

    function Reg(r: Isa.Reg): (v: uint32)
      requires Valid()
      reads this, x, mem
      ensures v == RegAt(M(), r)
    {
      x[r as int]
    }

    function Pc(): (a: uint32)
      requires Valid()
      reads this, x, mem
      ensures a == M().pc
    {
      pc
    }

    method SetReg(r: Isa.Reg, v: uint32)
      requires Valid()
      modifies x
      ensures Valid() && M() == Write(old(M()), r, v)
    {
      if r != 0 { x[r as int] := v; }
    }

    // Memory.
    method Load8(a: uint32) returns (v: uint8, ok: bool)
      requires Valid()
      ensures v == ByteAt(M(), a) && ok == Mapped(M(), a)
    {
      var o := a - base;
      ok := a >= base && o < mem.Length;
      v := if ok then mem[o] else 0;
    }

    method Load16(a: uint32) returns (v: uint16, ok: bool)
      requires Valid()
      ensures v == HalfAt(M(), a) && ok == HalfMapped(M(), a)
    {
      hide Rv32Cpu.M;
      var low, ok0 := Load8(a);
      var high, ok1 := Load8(U32(a + 1));
      return low + 0x100 * (high as int), ok0 && ok1;
    }

    method Load32(a: uint32) returns (v: uint32, ok: bool)
      requires Valid()
      ensures v == WordAt(M(), a) && ok == WordMapped(M(), a)
    {
      hide Rv32Cpu.M;
      var low, ok0 := Load16(a);
      var high, ok1 := Load16(U32(a + 2));
      return low + 0x1_0000 * (high as int), ok0 && ok1;
    }

    method Store8(a: uint32, v: uint32) returns (ok: bool)
      requires Valid()
      modifies mem, this`reserved
      ensures Valid() && ok == Writable(old(M()), Byte, a)
      ensures M() == if ok then Stored(old(M()), Byte, a, v) else old(M())
    {
      var o := a - base;
      ok := a >= base && o < mem.Length;
      if ok {
        mem[o] := v % 0x100;
        reserved := false;
      }
    }

    method Store16(a: uint32, v: uint32) returns (ok: bool)
      requires Valid()
      modifies mem, this`reserved
      ensures Valid() && ok == Writable(old(M()), Half, a)
      ensures M() == if ok then Stored(old(M()), Half, a, v) else old(M())
    {
      var o := a - base;
      ok := a >= base && o + 2 <= mem.Length;
      if !ok { return; }
      mem[o] := v % 0x100;
      mem[o + 1] := v / 0x100 % 0x100;
      reserved := false;
    }

    method Store32(a: uint32, v: uint32) returns (ok: bool)
      requires Valid()
      modifies mem, this`reserved
      ensures Valid() && ok == Writable(old(M()), Word, a)
      ensures M() == if ok then Stored(old(M()), Word, a, v) else old(M())
    {
      var o := a - base;
      ok := a >= base && o + 4 <= mem.Length;
      if !ok { return; }
      mem[o] := v % 0x100;
      mem[o + 1] := v / 0x100 % 0x100;
      mem[o + 2] := v / 0x1_0000 % 0x100;
      mem[o + 3] := v / 0x100_0000;
      reserved := false;
    }

    method Retire(npc: uint32, t: Timing)
      requires Valid()
      modifies this`pc, this`retired, this`cycles, x
      ensures Valid() && Finish(old(M()), npc, t) == Done(M())
    {
      hide U64, InstructionCycles;
      pc := npc;
      x[0] := 0;
      retired := U64(retired + 1);
      cycles := U64(cycles + if mode == Accurate then InstructionCycles(t) else 1);
    }

    method Exec16Quadrant0(c: bv32) returns (trap: Option<Trap>)
      requires Valid() && IsParcel(c) && c & 3 == 0
      modifies this`pc, this`retired, this`cycles, x, mem, this`reserved
      ensures Valid() && Result(trap) == Stepping.Exec16(env, old(M()), c)
    {
      hide Rv32Cpu.M, Value, Listing0, RawAddi4spn, RawLw, PrimeLow, PrimeHigh, RegAt, U32, IsParcel,
           Stepping.Exec16, Finish, Write, Stored, WordAt, WordMapped, Writable, Execute, Bit;
      var f3 := c >> 13;
      var npc := U32(Pc() + 2);
      var rd, rs1 := PrimeLow(c), PrimeHigh(c);
      var timing := AluTime;
      if f3 == 0 {
        var im := RawAddi4spn(c);
        Addi4spnRow(env, M(), c);
        if im == 0 { return Some(IllegalAddi4spn); }
        SetReg(rd, U32(Reg(2) + Value(im)));
      } else if f3 == 2 {
        timing := LoadTime;
        LwRow(env, M(), c);
        var v, ok := Load32(U32(Reg(rs1) + Value(RawLw(c))));
        SetReg(rd, v);
        if !ok { return Some(Silent); }
      } else if f3 == 6 {
        timing := StoreTime;
        SwRow(env, M(), c);
        var ok := Store32(U32(Reg(rs1) + Value(RawLw(c))), Reg(rd));
        if !ok { return Some(Silent); }
      } else {
        Illegal0Row(env, M(), c);
        return Some(UnsupportedC);
      }
      Retire(npc, timing);
      trap := None;
    }

    /** C.SRLI, C.SRAI, C.ANDI and the register-register group. */
    method Exec16Arithmetic(c: bv32) returns (trap: Option<Trap>)
      requires Valid() && IsParcel(c) && c & 3 == 1 && c >> 13 == 4
      modifies this`pc, this`retired, this`cycles, x
      ensures Valid() && Result(trap) == Stepping.Exec16(env, old(M()), c)
    {
      hide Rv32Cpu.M, Value, ListingArithmetic, Raw6, RawFn, PrimeLow, PrimeHigh, RegAt, U32, IsParcel,
           Stepping.Exec16, Finish, Write, Execute, Bit, Sext, CShift;
      var npc := U32(Pc() + 2);
      var d, sub := PrimeHigh(c), (c >> 10) & 3;
      var timing := AluTime;
      if sub < 2 {
        timing := ShiftTime;
        ShiftRow(env, M(), c);
        SetReg(d, CShift(env, if sub == 0 then Srl else Sra, Reg(d), Raw6(c)));
      } else if sub == 2 {
        AndiRow(env, M(), c);
        SetReg(d, And32(Reg(d), Value(Sext(Raw6(c), 0x20))));
      } else {
        var s, fn := PrimeLow(c), RawFn(c);
        ArithmeticRow(env, M(), c);
        if fn == 0 { SetReg(d, U32(Reg(d) - Reg(s))); }
        else if fn == 1 { SetReg(d, Xor32(Reg(d), Reg(s))); }
        else if fn == 2 { SetReg(d, Or32(Reg(d), Reg(s))); }
        else if fn == 3 { SetReg(d, And32(Reg(d), Reg(s))); }
        else { return Some(Rv64Only); }
      }
      Retire(npc, timing);
      trap := None;
    }

    method Exec16Quadrant1(c: bv32) returns (trap: Option<Trap>)
      requires Valid() && IsParcel(c) && c & 3 == 1
      modifies this`pc, this`retired, this`cycles, x
      ensures Valid() && Result(trap) == Stepping.Exec16(env, old(M()), c)
    {
      hide Rv32Cpu.M, Value, Listing1, Raw6, RawJump, RawLui, RawAddi16sp, RawBranch, PrimeHigh, RegHigh, RegAt,
           U32, Stepping.Exec16, Finish, Write, Execute, Bit, Sext;
      var f3 := c >> 13;
      var npc := U32(Pc() + 2);
      var rd := RegHigh(c);
      var timing := AluTime;
      if f3 == 0 {
        AddiRow(env, M(), c);
        SetReg(rd, U32(Reg(rd) + Value(Sext(Raw6(c), 0x20))));
      } else if f3 == 1 || f3 == 5 {
        timing := JumpTime;
        JumpRow(env, M(), c);
        var target := U32(Pc() + Value(Sext(RawJump(c), 0x800)));
        if f3 == 1 { SetReg(1, npc); }
        npc := target;
      } else if f3 == 2 {
        LiRow(env, M(), c);
        SetReg(rd, Value(Sext(Raw6(c), 0x20)));
      } else if f3 == 3 {
        LuiRow(env, M(), c);
        if rd == 2 { SetReg(2, U32(Reg(2) + Value(Sext(RawAddi16sp(c), 0x200)))); }
        else { SetReg(rd, Value(Sext(RawLui(c), 0x2_0000))); }
      } else if f3 == 4 {
        trap := Exec16Arithmetic(c);
        return;
      } else {
        BranchRow(env, M(), c);
        var zero := Reg(PrimeHigh(c)) == 0;
        var taken := if f3 == 7 then !zero else zero;
        if taken { npc := U32(Pc() + Value(Sext(RawBranch(c), 0x100))); }
        timing := if taken then TakenTime else NotTakenTime;
      }
      Retire(npc, timing);
      trap := None;
    }

    method Exec16Quadrant2(c: bv32) returns (trap: Option<Trap>)
      requires Valid() && IsParcel(c) && c & 3 == 2
      modifies this`pc, this`retired, this`cycles, x, mem, this`reserved
      ensures Valid() && Result(trap) == Stepping.Exec16(env, old(M()), c)
    {
      hide Rv32Cpu.M, Value, Listing2, Raw6, RawLwsp, RawSwsp, RegHigh, RegLow, RegAt, U32, IsParcel,
           Stepping.Exec16, Finish, Write, Stored, WordAt, WordMapped, Writable, Execute, Bit, CShift;
      var f3 := c >> 13;
      var npc := U32(Pc() + 2);
      var rd, rs2 := RegHigh(c), RegLow(c);
      var timing := AluTime;
      if f3 == 0 {
        timing := ShiftTime;
        SlliRow(env, M(), c);
        SetReg(rd, CShift(env, Sll, Reg(rd), Raw6(c)));
      } else if f3 == 2 {
        timing := LoadTime;
        LwspRow(env, M(), c);
        var v, ok := Load32(U32(Reg(2) + Value(RawLwsp(c))));
        SetReg(rd, v);
        if !ok { return Some(Silent); }
      } else if f3 == 4 {
        if (c >> 12) & 1 == 0 {
          MoveRow(env, M(), c);
          if rs2 == 0 {
            timing := JumpTime;
            npc := Even(Reg(rd));
          } else {
            SetReg(rd, Reg(rs2));
          }
        } else {
          AddRow(env, M(), c);
          if rd == 0 && rs2 == 0 { return Some(Breakpoint); }
          if rs2 == 0 {
            timing := JumpTime;
            SetReg(1, npc);
            npc := Even(Reg(rd));
          } else {
            SetReg(rd, U32(Reg(rd) + Reg(rs2)));
          }
        }
      } else if f3 == 6 {
        timing := StoreTime;
        SwspRow(env, M(), c);
        var ok := Store32(U32(Reg(2) + Value(RawSwsp(c))), Reg(rs2));
        if !ok { return Some(Silent); }
      } else {
        Illegal2Row(env, M(), c);
        return Some(UnsupportedC);
      }
      Retire(npc, timing);
      trap := None;
    }

    method Exec16(c: bv32) returns (trap: Option<Trap>)
      requires Valid() && IsParcel(c)
      modifies this`pc, this`retired, this`cycles, x, mem, this`reserved
      ensures Valid() && Result(trap) == Stepping.Exec16(env, old(M()), c)
    {
      hide Rv32Cpu.M, Stepping.Exec16;
      if c & 3 == 0 { trap := Exec16Quadrant0(c); }
      else if c & 3 == 1 { trap := Exec16Quadrant1(c); }
      else { trap := Exec16Quadrant2(c); }
    }

    /** What is left to do when an instruction body has run: retire, or report the trap. */
    ghost function Pending(trap: Option<Trap>, npc: uint32, t: Timing): Outcome
      requires Valid()
      reads this, x, mem
    {
      match trap case None => Finish(M(), npc, t) case Some(reason) => Trapped(reason, M())
    }

    method ExecBranch(w: bv32) returns (trap: Option<Trap>, npc: uint32, t: Timing)
      requires Valid() && w & 0x7f == 0x63
      ensures Pending(trap, npc, t) == Semantics.Exec32(M(), w)
    {
      hide Rv32Cpu.M, Value, Semantics.Exec32, Decode, Execute, Finish, RegAt, ImmB, Rs1, Rs2, U32, Signed;
      var a, b := Reg(Rs1(w)), Reg(Rs2(w));
      BranchRow32(M(), w);
      var f3, taken := F3(w), false;
      npc, t := U32(Pc() + 4), NotTakenTime;
      if f3 == 0 { taken := a == b; }
      else if f3 == 1 { taken := a != b; }
      else if f3 == 4 { taken := Signed(a) < Signed(b); }
      else if f3 == 5 { taken := Signed(a) >= Signed(b); }
      else if f3 == 6 { taken := a < b; }
      else if f3 == 7 { taken := a >= b; }
      else { return Some(BadBranch), npc, t; }
      if taken { npc, t := U32(Pc() + Value(ImmB(w))), TakenTime; }
      trap := None;
    }

    method ExecLoad(w: bv32) returns (trap: Option<Trap>)
      requires Valid() && w & 0x7f == 0x03
      modifies x
      ensures Valid() && Pending(trap, U32(old(Pc()) + 4), LoadTime) == Semantics.Exec32(old(M()), w)
    {
      hide Rv32Cpu.M, Value, Semantics.Exec32, Decode, Execute, Finish, Write, RegAt, ImmI, Rs1, Rd, U32, ByteAt,
           HalfAt, WordAt, Mapped, HalfMapped, WordMapped;
      LoadRow32(M(), w);
      var a, f3, v, ok := U32(Reg(Rs1(w)) + Value(ImmI(w))), F3(w), 0, true;
      if f3 == 0 {
        var byte;
        byte, ok := Load8(a);
        v := SignExtended(byte, 0x80);
      } else if f3 == 1 {
        var half;
        half, ok := Load16(a);
        v := SignExtended(half, 0x8000);
      } else if f3 == 2 {
        v, ok := Load32(a);
      } else if f3 == 4 {
        v, ok := Load8(a);
      } else if f3 == 5 {
        v, ok := Load16(a);
      } else {
        return Some(BadLoad);
      }
      if !ok { return Some(LoadFault); }
      SetReg(Rd(w), v);
      trap := None;
    }

    method ExecStore(w: bv32) returns (trap: Option<Trap>)
      requires Valid() && w & 0x7f == 0x23
      modifies mem, this`reserved
      ensures Valid() && Pending(trap, U32(old(Pc()) + 4), StoreTime) == Semantics.Exec32(old(M()), w)
    {
      hide Rv32Cpu.M, Value, Semantics.Exec32, Decode, Execute, Finish, Write, RegAt, ImmS, Rs1, Rs2, U32,
           Writable, Stored;
      StoreRow32(M(), w);
      var a, b, f3, ok := U32(Reg(Rs1(w)) + Value(ImmS(w))), Reg(Rs2(w)), F3(w), true;
      if f3 == 0 { ok := Store8(a, b); }
      else if f3 == 1 { ok := Store16(a, b); }
      else if f3 == 2 { ok := Store32(a, b); }
      else { return Some(BadStore); }
      trap := if ok then None else Some(StoreFault);
    }

    method ExecOpImm(w: bv32) returns (t: Timing)
      requires Valid() && w & 0x7f == 0x13
      modifies x
      ensures Valid() && Pending(None, U32(old(Pc()) + 4), t) == Semantics.Exec32(old(M()), w)
    {
      hide Rv32Cpu.M, Value, Semantics.Exec32, Decode, Execute, Finish, Write, RegAt, ImmI, Rs1, Rd, U32, Signed,
           And32, Or32, Xor32, ShiftLeft, ShiftRight, ShiftArithmetic;
      OpImmRow32(M(), w);
      var a, imm, f3, v := Reg(Rs1(w)), Value(ImmI(w)), F3(w), 0;
      var amount := Value((w >> 20) & 31);
      t := AluTime;
      if f3 == 0 {
        v := U32((a as int) + imm);
      } else if f3 == 2 {
        v := if Signed(a) < Signed(imm) then 1 else 0;
      } else if f3 == 3 {
        v := if a < imm then 1 else 0;
      } else if f3 == 4 {
        v := Xor32(a, imm);
      } else if f3 == 6 {
        v := Or32(a, imm);
      } else if f3 == 7 {
        v := And32(a, imm);
      } else if f3 == 1 {
        t := ShiftTime;
        v := ShiftLeft(a, amount);
      } else {
        t := ShiftTime;
        v := if (w >> 20) & 0x400 != 0 then ShiftArithmetic(a, amount) else ShiftRight(a, amount);
      }
      SetReg(Rd(w), v);
    }

    /** The M extension: operations with function code 1. */
    method ExecMulDiv(w: bv32) returns (t: Timing)
      requires Valid() && w & 0x7f == 0x33 && F7(w) == 1
      modifies x
      ensures Valid() && Pending(None, U32(old(Pc()) + 4), t) == Semantics.Exec32(old(M()), w)
    {
      hide Rv32Cpu.M, Semantics.Exec32, Decode, Execute, Finish, Write, RegAt, Rs1, Rs2, Rd, U32, TruncDiv, TruncRem;
      MulDivRow32(M(), w);
      var a, b, f3, v := Reg(Rs1(w)), Reg(Rs2(w)), F3(w), 0;
      t := if f3 <= 3 then MultiplyTime else DivideTime;
      if f3 == 0 {
        v := U32(a * b);
      } else if f3 == 1 {
        v := U32(Signed(a) * Signed(b) / TWO32);
      } else if f3 == 2 {
        v := U32(Signed(a) * b / TWO32);
      } else if f3 == 3 {
        v := U32(a * b / TWO32);
      } else if f3 == 4 {
        v := if b == 0 then 0xffff_ffff
             else if Signed(a) == -0x8000_0000 && Signed(b) == -1 then 0x8000_0000
             else U32(TruncDiv(Signed(a), Signed(b)));
      } else if f3 == 5 {
        v := if b != 0 then U32(a / b) else 0xffff_ffff;
      } else if f3 == 6 {
        v := if b == 0 then a
             else if Signed(a) == -0x8000_0000 && Signed(b) == -1 then 0
             else U32(TruncRem(Signed(a), Signed(b)));
      } else {
        v := if b != 0 then U32(a % b) else a;
      }
      SetReg(Rd(w), v);
    }

    method ExecOp(w: bv32) returns (t: Timing)
      requires Valid() && w & 0x7f == 0x33
      modifies x
      ensures Valid() && Pending(None, U32(old(Pc()) + 4), t) == Semantics.Exec32(old(M()), w)
    {
      hide Rv32Cpu.M, Semantics.Exec32, Decode, Execute, Finish, Write, RegAt, Rs1, Rs2, Rd, F7, U32, Signed,
           And32, Or32, Xor32, ShiftLeft, ShiftRight, ShiftArithmetic;
      if F7(w) == 1 {
        t := ExecMulDiv(w);
        return;
      }
      OpRow32(M(), w);
      var a, b, f3, alternate, v := Reg(Rs1(w)), Reg(Rs2(w)), F3(w), F7(w) == 0x20, 0;
      t := if f3 == 1 || f3 == 5 then ShiftTime else AluTime;
      if f3 == 0 {
        v := if alternate then U32((a as int) - b) else U32((a as int) + b);
      } else if f3 == 1 {
        v := ShiftLeft(a, b % 32);
      } else if f3 == 2 {
        v := if Signed(a) < Signed(b) then 1 else 0;
      } else if f3 == 3 {
        v := if a < b then 1 else 0;
      } else if f3 == 4 {
        v := Xor32(a, b);
      } else if f3 == 5 {
        v := if alternate then ShiftArithmetic(a, b % 32) else ShiftRight(a, b % 32);
      } else if f3 == 6 {
        v := Or32(a, b);
      } else {
        v := And32(a, b);
      }
      SetReg(Rd(w), v);
    }

    method ExecSystem(w: bv32) returns (trap: Option<Trap>, npc: uint32)
      requires Valid() && w & 0x7f == 0x73
      modifies x
      ensures Valid() && Pending(trap, npc, CsrTime) == Semantics.Exec32(old(M()), w)
    {
      hide Rv32Cpu.M, Semantics.Exec32, Decode, Execute, Finish, Write, Rd, Rs1, U32, CounterValue;
      npc := U32(Pc() + 4);
      SystemRow32(M(), w);
      if w == 0x73 { return None, RETURN_SENTINEL; }
      if w == 0x10_0073 { return Some(Breakpoint), npc; }
      var csr, f3, v := (w >> 20) & 0xfff, F3(w), 0;
      var counter := CounterFor(csr);
      if csr == 0xC00 || csr == 0xC01 || csr == 0xC02 { v := counter % TWO32; }
      else if csr == 0xC80 || csr == 0xC81 || csr == 0xC82 { v := counter / TWO32; }
      else { return Some(UnsupportedCsr), npc; }
      if (f3 == 2 || f3 == 3 || f3 == 6 || f3 == 7) && Rs1(w) == 0 { SetReg(Rd(w), v); }
      else { return Some(ReadOnlyCsr), npc; }
      trap := None;
    }

    /** The 64-bit counter a CSR number selects: only accurate mode has a clock of its own. */
    method CounterFor(csr: bv32) returns (counter: uint64)
      requires Valid()
      ensures counter == CounterValue(M(), CsrCounter(csr))
    {
      counter := retired;
      if mode == Accurate {
        if csr == 0xC00 || csr == 0xC80 { counter := cycles; }
        else if csr == 0xC01 || csr == 0xC81 { counter := Nanoseconds(cycles); }
      }
    }

    function HoldsReservation(a: uint32): (b: bool)
      requires Valid()
      reads this, x, mem
      ensures b == (M().reserved && M().reservation == a)
    {
      reserved && reservation == a
    }

    method Reserve(a: uint32)
      requires Valid()
      modifies this`reserved, this`reservation
      ensures Valid() && M() == old(M()).(reserved := true, reservation := a)
    {
      reservation := a;
      reserved := true;
    }

    method DropReservation()
      requires Valid()
      modifies this`reserved
      ensures Valid() && M() == old(M()).(reserved := false)
    {
      reserved := false;
    }

    method ExecAtomic(w: bv32) returns (trap: Option<Trap>)
      requires Valid() && w & 0x7f == 0x2f
      modifies x, mem, this`reserved, this`reservation
      ensures Valid() && Pending(trap, U32(old(Pc()) + 4), AtomicTime) == Semantics.Exec32(old(M()), w)
    {
      hide Rv32Cpu.M, Semantics.Exec32, Decode, Execute, ExecuteAtomic, Finish, RegAt, Rd, Rs1, Rs2, F3, U32,
           WordAt, WordMapped, Writable, Stored, Write, AmoResult, RmwOf, Funct5;
      AtomicRow32(M(), w);
      if F3(w) != 2 { return Some(IllegalAtomic); }
      var a := Reg(Rs1(w));
      var word, ok := Load32(a);
      if !ok { return Some(AtomicFault); }
      var funct5 := Funct5(w);
      if funct5 == 2 {
        if Rs2(w) != 0 { return Some(IllegalLr); }
        Reserve(a);
        SetReg(Rd(w), word);
        return None;
      } else if funct5 == 3 {
        ok := ExecSc(a, Reg(Rs2(w)), Rd(w));
      } else if RmwOf(funct5).Some? {
        ok := Store32(a, AmoResult(RmwOf(funct5).value, word, Reg(Rs2(w))));
        SetReg(Rd(w), word);
      } else {
        return Some(UnsupportedAtomic);
      }
      trap := if ok then None else Some(AtomicStoreFault);
    }

    /** SC.W: store if the reservation is still held, report, and drop the reservation either way. */
    method ExecSc(a: uint32, b: uint32, rd: Isa.Reg) returns (ok: bool)
      requires Valid()
      modifies x, mem, this`reserved
      ensures Valid() && ok == ScSucceeds(old(M()), a) && M() == AfterSc(old(M()), a, b, rd)
    {
      hide Rv32Cpu.M, Writable, U32;
      ok := true;
      if HoldsReservation(a) {
        ok := Store32(a, b);
        SetReg(rd, 0);
      } else {
        SetReg(rd, 1);
      }
      DropReservation();
    }

    method Exec32(w: bv32) returns (trap: Option<Trap>)
      requires Valid()
      modifies this`pc, this`retired, this`cycles, x, mem, this`reserved, this`reservation
      ensures Valid() && Result(trap) == Semantics.Exec32(old(M()), w)
    {
      hide Rv32Cpu.M, Value, Semantics.Exec32, Decode, Execute, Finish, Write, RegAt, Rd, Rs1, ImmU, ImmJ, ImmI,
           U32, Even;
      OtherRow32(M(), w);
      var op, npc, t := w & 0x7f, U32(Pc() + 4), AluTime;
      trap := None;
      if op == 0x37 {
        SetReg(Rd(w), Value(ImmU(w)));
      } else if op == 0x17 {
        SetReg(Rd(w), U32(Pc() + Value(ImmU(w))));
      } else if op == 0x6f {
        t := JumpTime;
        var target := U32(Pc() + Value(ImmJ(w)));
        SetReg(Rd(w), npc);
        npc := target;
      } else if op == 0x67 {
        t := JumpTime;
        var target := Even(U32(Reg(Rs1(w)) + Value(ImmI(w))));
        SetReg(Rd(w), npc);
        npc := target;
      } else if op == 0x63 {
        trap, npc, t := ExecBranch(w);
      } else if op == 0x03 {
        t := LoadTime;
        trap := ExecLoad(w);
      } else if op == 0x23 {
        t := StoreTime;
        trap := ExecStore(w);
      } else if op == 0x13 {
        t := ExecOpImm(w);
      } else if op == 0x33 {
        t := ExecOp(w);
      } else if op == 0x2f {
        t := AtomicTime;
        trap := ExecAtomic(w);
      } else if op == 0x0f {
        t := FenceTime;
      } else if op == 0x73 {
        t := CsrTime;
        trap, npc := ExecSystem(w);
      } else {
        trap := Some(UnsupportedOpcode);
      }
      if trap.None? { Retire(npc, t); }
    }

    method Act(action: HostAction)
      requires Valid()
      modifies x, mem, this`reserved
      ensures Valid() && M() == Stepping.Act(old(M()), action)
    {
      hide Rv32Cpu.M, Write, Stored, Writable;
      match action
      case SetReg(r, value) => SetReg(r, value);
      case StoreMem(width, a, value) =>
        match width
        case Byte => var _ := Store8(a, value);
        case Half => var _ := Store16(a, value);
        case Word => var _ := Store32(a, value);
    }

    /** The callback for host call `k`: what it does to this object, in order, and its charge. */
    method HostCall(k: uint32)
      requires Valid()
      modifies x, mem, this`reserved, this`host, this`cycles
      ensures Valid() && M() == Stepping.HostCall(env, old(M()), k)
    {
      hide Rv32Cpu.M, Stepping.Act;
      var arguments := Arguments();
      var effect := env.call(k, M());
      ActKeepsSettings(M(), effect.actions);
      for i := 0 to |effect.actions|
        invariant Valid()
        invariant ActAll(M(), effect.actions[i..]) == ActAll(old(M()), effect.actions)
      {
        Act(effect.actions[i]);
        assert effect.actions[i..][1..] == effect.actions[i + 1..];
      }
      SetHost(effect.host);
      ChargeAbi(k, arguments);
    }

    function Arguments(): (a: seq<uint32>)
      requires Valid()
      reads this, x, mem
      ensures a == M().x[10..18]
    {
      x[10..18]
    }

    method SetHost(host: seq<uint8>)
      requires Valid()
      modifies this`host
      ensures Valid() && M() == old(M()).(host := host)
    {
      this.host := host;
    }

    method ChargeAbi(k: uint32, arguments: seq<uint32>)
      requires Valid() && |arguments| == 8
      modifies this`cycles
      ensures Valid()
      ensures M() == old(M()).(cycles :=
        U64(old(M()).cycles + if old(M()).mode == Accurate then AbiCycles(k, arguments) else 0))
    {
      if mode == Accurate { cycles := U64(cycles + AbiCycles(k, arguments)); }
    }

    method SetPc(a: uint32)
      requires Valid()
      modifies this`pc
      ensures Valid() && M() == old(M()).(pc := a)
    {
      pc := a;
    }

    /** At the address of a host function: the call, and the return from it. */
    method HostReturn()
      requires Valid() && IsHost(env, Pc())
      modifies this`pc, this`cycles, this`reserved, this`host, x, mem
      ensures Valid() && M() == Stepping.HostStep(env, old(M()))
    {
      hide Rv32Cpu.M, Stepping.HostCall, IsHost, HostIndex;
      HostCall(HostIndex(env, Pc()));
      SetPc(Reg(1));
    }

    method Step() returns (trap: Option<Trap>)
      requires Valid() && trace.Valid()
      modifies this`pc, this`retired, this`cycles, this`reserved, this`reservation, this`host, x, mem, trace, trace.ring
      ensures Valid() && trace.Valid() && Result(trap) == Stepping.Step(env, old(M()))
      ensures trace.history == old(trace.history) + if IsHost(env, old(Pc())) then [] else [old(Pc())]
    {
      hide Rv32Cpu.M, Stepping.HostStep, IsHost, Compressed, Vector, Parcel, IsParcel, Stepping.Exec16,
           Semantics.Exec32, HalfAt, WordAt, HalfMapped, WordMapped, Trace.InstructionTrace.Valid;
      if IsHost(env, Pc()) {
        HostReturn();
        return None;
      }
      trace.Record(Pc());
      var low, ok := Load16(Pc());
      if !ok { return Some(FetchFault); }
      if Compressed(low) {
        ParcelOf(low);
        trap := Exec16(Parcel(low));
        return;
      }
      var w;
      w, ok := Load32(Pc());
      if !ok { return Some(Truncated); }
      trap := Exec32(Vector(w));
    }

    method SetInput(input: uint32)
      requires Valid()
      modifies this`input
      ensures Valid() && M() == old(M()).(input := input)
    {
      this.input := input;
    }

    method SetMode(mode: Mode)
      requires Valid()
      modifies this`mode
      ensures Valid() && this.mode == mode && M() == old(M()).(mode := mode)
    {
      this.mode := mode;
    }

    /** The clock never goes back, and moves only in accurate mode. */
    method AdvanceClockTo(target: uint64)
      requires Valid()
      modifies this`cycles
      ensures Valid()
      ensures M() == if old(M()).mode == Accurate then old(M()).(cycles := Max(old(M()).cycles, target)) else old(M())
    {
      if mode == Accurate { cycles := Max(cycles, target); }
    }

    function Cycles(): (n: uint64)
      requires Valid()
      reads this, x, mem
      ensures n == M().cycles
    {
      cycles
    }

    /** Attach guest memory and start from a clean state; the timing mode stays. */
    method Reset(base: uint32, mem: array<uint8>)
      requires Valid() && trace.Valid() && x as object != mem && trace.ring as object != mem
      modifies this`base, this`mem, this`pc, this`retired, this`cycles, this`reserved, x, trace
      ensures Valid() && trace.Valid() && trace.history == [] && this.mem == mem
      ensures M() == old(M()).(x := seq(32, _ => 0), pc := base, base := base, mem := mem[..], reserved := false,
                               retired := 0, cycles := 0)
    {
      this.base, this.mem := base, mem;
      forall i | 0 <= i < 32 { x[i] := 0; }
      pc, retired, cycles, reserved := base, 0, 0, false;
      trace.Clear(base);
    }

    method BeginCall(entry: uint32, a0: uint32)
      requires Valid()
      modifies this`pc, x
      ensures Valid() && M() == Frames.BeginCall(old(M()), entry, a0)
    {
      pc := entry;
      x[1] := RETURN_SENTINEL;
      x[10] := a0;
      x[2] := U32(base + mem.Length - mem.Length % 16);
    }

    /** Run a guest function until it returns, traps or has used up its budget. */
    method Call(entry: uint32, a0: uint32, budget: nat) returns (status: Status)
      requires Valid() && trace.Valid()
      modifies this`pc, this`retired, this`cycles, this`reserved, this`reservation, this`host, x, mem, trace, trace.ring
      ensures Valid() && trace.Valid()
      ensures Ended(status, M()) == Frames.Call(Interpreter(env), old(M()), entry, a0, budget)
    {
      hide Rv32Cpu.M, Stepping.Step, Frames.BeginCall, IsHost;
      BeginCall(entry, a0);
      var left := budget;
      while Pc() != RETURN_SENTINEL && left > 0
        invariant Valid() && trace.Valid()
        invariant Frames.Run(Interpreter(env), M(), left) == Frames.Call(Interpreter(env), old(M()), entry, a0, budget)
        decreases left
      {
        left := left - 1;
        var trap := Step();
        if trap.Some? { return Failed(trap.value); }
      }
      status := if Pc() != RETURN_SENTINEL then BudgetExhausted else Completed;
    }
  }

  /** How a guest call ended: the source's return value and message. */
  datatype Status = Completed | Failed(trap: Trap) | BudgetExhausted

  function Ended(status: Status, m: Machine): CallResult {
    match status
    case Completed => Returned(m)
    case Failed(trap) => Faulted(trap, m)
    case BudgetExhausted => Exhausted(m)
  }

  lemma ParcelOf(h: uint16)
    requires Compressed(h)
    ensures IsParcel(Parcel(h))
  {
  }
}
