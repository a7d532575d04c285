/** What each instruction does to the machine: the reference that the interpreter's methods are proved against. */
module Semantics {
  import opened Words
  import opened Isa
  import opened Clock

  /** A call that returns jumps here; no instruction lives at this address. */
  const RETURN_SENTINEL: uint32 := 0xffff_fffc

  /**
   * Everything guest code and host calls can observe or change. `host` stands for the rest of the runtime
   * (framebuffer, random generator, scores), which the interpreter only hands to the host callback.
   */
  datatype State = State(
    x: seq<uint32>, pc: uint32, base: uint32, mem: seq<uint8>,
    reserved: bool, reservation: uint32, retired: uint64, cycles: uint64, mode: Mode,
    input: uint32, host: seq<uint8>)

  type Machine = s: State | |s.x| == 32 && s.x[0] == 0
    witness State(seq(32, _ => 0), 0, 0, [], false, 0, 0, 0, Accurate, 0, [])

  datatype Outcome = Done(m: Machine) | Trapped(trap: Trap, m: Machine)

  function RegAt(m: Machine, r: Reg): uint32 {
    m.x[r as int]
  }

  function Write(m: Machine, r: Reg, v: uint32): Machine {
    if r == 0 then m else m.(x := m.x[r as int := v])
  }

  // Memory. A load is assembled from bytes at wrapping addresses; a store checks its whole range at once.
  predicate Mapped(m: Machine, a: uint32) {
    m.base <= a < m.base + |m.mem|
  }

  function ByteAt(m: Machine, a: uint32): uint8 {
    if Mapped(m, a) then m.mem[a - m.base] else 0
  }

  function HalfAt(m: Machine, a: uint32): uint16 {
    ByteAt(m, a) + 0x100 * ByteAt(m, U32(a + 1))
  }

  function WordAt(m: Machine, a: uint32): uint32 {
    HalfAt(m, a) + 0x1_0000 * HalfAt(m, U32(a + 2))
  }

  predicate HalfMapped(m: Machine, a: uint32) {
    Mapped(m, a) && Mapped(m, U32(a + 1))
  }

  predicate WordMapped(m: Machine, a: uint32) {
    HalfMapped(m, a) && HalfMapped(m, U32(a + 2))
  }

  function Bytes(width: Width): int {
    match width case Byte => 1 case Half => 2 case Word => 4
  }

  predicate Readable(m: Machine, width: Width, a: uint32) {
    match width case Byte => Mapped(m, a) case Half => HalfMapped(m, a) case Word => WordMapped(m, a)
  }

  function Loaded(m: Machine, width: Width, signed: bool, a: uint32): uint32 {
    match width
    case Byte => var v := ByteAt(m, a); if signed && v >= 0x80 then TWO32 + v - 0x100 else v
    case Half => var v := HalfAt(m, a); if signed && v >= 0x8000 then TWO32 + v - 0x1_0000 else v
    case Word => WordAt(m, a)
  }

  predicate Writable(m: Machine, width: Width, a: uint32) {
    m.base <= a && a - m.base + Bytes(width) <= |m.mem|
  }

  function Stored(m: Machine, width: Width, a: uint32, v: uint32): Machine
    requires Writable(m, width, a)
  {
    var o := a - m.base;
    var bytes := match width
      case Byte => m.mem[o := v % 0x100]
      case Half => m.mem[o := v % 0x100][o + 1 := v / 0x100 % 0x100]
      case Word => m.mem[o := v % 0x100][o + 1 := v / 0x100 % 0x100]
                        [o + 2 := v / 0x1_0000 % 0x100][o + 3 := v / 0x100_0000];
    m.(mem := bytes, reserved := false)
  }

  // Arithmetic of the I and M extensions.
  function ShiftLeft(a: uint32, n: nat): uint32 {
    U32(a * Pow2(n))
  }

  function ShiftRight(a: uint32, n: nat): uint32 {
    U32(a / Pow2(n))
  }

  function ShiftArithmetic(a: uint32, n: nat): uint32 {
    U32(Signed(a) / Pow2(n))
  }

  function Alu(op: AluOp, a: uint32, b: uint32): uint32 {
    match op
    case Add => U32(a + b)
    case Sub => U32(a - b)
    case Sll => ShiftLeft(a, b % 32)
    case Slt => if Signed(a) < Signed(b) then 1 else 0
    case Sltu => if a < b then 1 else 0
    case Xor => Xor32(a, b)
    case Srl => ShiftRight(a, b % 32)
    case Sra => ShiftArithmetic(a, b % 32)
    case Or => Or32(a, b)
    case And => And32(a, b)
  }

  function MulDivide(op: MulOp, a: uint32, b: uint32): uint32 {
    match op
    case Mul => U32(a * b)
    case Mulh => U32(Signed(a) * Signed(b) / TWO32)
    case Mulhsu => U32(Signed(a) * b / TWO32)
    case Mulhu => U32(a * b / TWO32)
    case Div =>
      if b == 0 then TWO32 - 1
      else if Signed(a) == -0x8000_0000 && Signed(b) == -1 then 0x8000_0000
      else U32(TruncDiv(Signed(a), Signed(b)))
    case Divu => if b == 0 then TWO32 - 1 else U32(a / b)
    case Rem =>
      if b == 0 then a
      else if Signed(a) == -0x8000_0000 && Signed(b) == -1 then 0
      else U32(TruncRem(Signed(a), Signed(b)))
    case Remu => if b == 0 then a else U32(a % b)
  }

  function AmoResult(op: AmoOp, word: uint32, b: uint32): uint32 {
    match op
    case Swap => b
    case AmoAdd => U32(word + b)
    case AmoXor => Xor32(word, b)
    case AmoAnd => And32(word, b)
    case AmoOr => Or32(word, b)
    case AmoMin => if Signed(word) < Signed(b) then word else b
    case AmoMax => if Signed(word) > Signed(b) then word else b
    case AmoMinu => Min(word, b)
    case AmoMaxu => Max(word, b)
  }

  predicate Taken(cond: Cond, a: uint32, b: uint32) {
    match cond
    case Eq => a == b
    case Ne => a != b
    case Lt => Signed(a) < Signed(b)
    case Ge => Signed(a) >= Signed(b)
    case Ltu => a < b
    case Geu => a >= b
  }

  function Even(a: uint32): uint32 {
    a - a % 2
  }

  function CounterValue(m: Machine, counter: Counter): uint64 {
    if m.mode != Accurate || counter == Instret then m.retired
    else if counter == Cycle then m.cycles
    else Nanoseconds(m.cycles)
  }

  /** One instruction completes: the next address, one more retired, and its charge on the clock. */
  function Finish(m: Machine, next: uint32, t: Timing): Outcome {
    var charge := if m.mode == Accurate then InstructionCycles(t) else 1;
    Done(m.(pc := next, retired := U64(m.retired + 1), cycles := U64(m.cycles + charge)))
  }

  function ExecuteAtomic(m: Machine, i: Instr, next: uint32): Outcome
    requires i.Lr? || i.Sc? || i.Amo? || i.BadAtomic?
  {
    var a := RegAt(m, i.rs1);
    if !WordMapped(m, a) then Trapped(AtomicFault, m)
    else
      var word := WordAt(m, a);
      match i
      case BadAtomic(trap, _) => Trapped(trap, m)
      case Lr(rd, _) => Finish(Write(m.(reserved := true, reservation := a), rd, word), next, AtomicTime)
      case Sc(rd, _, rs2) =>
        if !(m.reserved && m.reservation == a) then
          Finish(Write(m.(reserved := false), rd, 1), next, AtomicTime)
        else if Writable(m, Word, a) then
          Finish(Write(Stored(m, Word, a, RegAt(m, rs2)), rd, 0), next, AtomicTime)
        else Trapped(AtomicStoreFault, Write(m.(reserved := false), rd, 0))
      case Amo(aop, rd, _, rs2) =>
        if Writable(m, Word, a) then
          Finish(Write(Stored(m, Word, a, AmoResult(aop, word, RegAt(m, rs2))), rd, word), next, AtomicTime)
        else Trapped(AtomicStoreFault, Write(m, rd, word))
  }

  /** The effect of instruction `i`, which occupies `length` bytes at the current address. */
  function Execute(m: Machine, i: Instr, length: uint32): Outcome {
    var next := U32(m.pc + length);
    match i
    case Lui(rd, imm) => Finish(Write(m, rd, Value(imm)), next, AluTime)
    case Auipc(rd, imm) => Finish(Write(m, rd, U32(m.pc + Value(imm))), next, AluTime)
    case Jal(rd, offset) => Finish(Write(m, rd, next), U32(m.pc + Value(offset)), JumpTime)
    case Jalr(rd, rs1, offset) =>
      Finish(Write(m, rd, next), Even(U32(RegAt(m, rs1) + Value(offset))), JumpTime)
    case Branch(cond, rs1, rs2, offset) =>
      if Taken(cond, RegAt(m, rs1), RegAt(m, rs2)) then Finish(m, U32(m.pc + Value(offset)), TakenTime)
      else Finish(m, next, NotTakenTime)
    case Load(width, signed, rd, rs1, offset) =>
      var a := U32(RegAt(m, rs1) + Value(offset));
      if !Readable(m, width, a) then Trapped(LoadFault, m)
      else Finish(Write(m, rd, Loaded(m, width, signed, a)), next, LoadTime)
    case Store(width, rs1, rs2, offset) =>
      var a := U32(RegAt(m, rs1) + Value(offset));
      if !Writable(m, width, a) then Trapped(StoreFault, m)
      else Finish(Stored(m, width, a, RegAt(m, rs2)), next, StoreTime)
    case OpImm(op, rd, rs1, imm) =>
      Finish(Write(m, rd, Alu(op, RegAt(m, rs1), Value(imm))), next,
             if op.Sll? || op.Srl? || op.Sra? then ShiftTime else AluTime)
    case Op(op, rd, rs1, rs2) =>
      Finish(Write(m, rd, Alu(op, RegAt(m, rs1), RegAt(m, rs2))), next,
             if op.Sll? || op.Srl? || op.Sra? then ShiftTime else AluTime)
    case MulDiv(mop, rd, rs1, rs2) =>
      Finish(Write(m, rd, MulDivide(mop, RegAt(m, rs1), RegAt(m, rs2))), next,
             if mop.Mul? || mop.Mulh? || mop.Mulhsu? || mop.Mulhu? then MultiplyTime else DivideTime)
    case Fence => Finish(m, next, FenceTime)
    case Ecall => Finish(m, RETURN_SENTINEL, CsrTime)
    case Csr(counter, high, rd) =>
      var v := CounterValue(m, counter);
      Finish(Write(m, rd, if high then v / TWO32 else v % TWO32), next, CsrTime)
    case Illegal(trap) => Trapped(trap, m)
    case _ => ExecuteAtomic(m, i, next)
  }

  function Exec32(m: Machine, w: bv32): Outcome {
    Execute(m, Decode(w), 4)
  }
}
