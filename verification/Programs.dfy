/** From an assembler to the machine: what a step does when an encoded instruction stands in memory, and its cost. */
module Programs {
  import opened Words
  import opened Isa
  import opened Clock
  import opened Semantics
  import opened Rvc
  import opened Stepping
  import opened Compression
  import opened Frames
  import Dispatch

  /** The bytes `b` stand in guest memory at the current address, within the address space. */
  predicate AtPc(m: Machine, b: seq<uint8>) {
    && m.base <= m.pc && m.pc - m.base + |b| <= |m.mem| && m.pc + |b| <= TWO32
    && m.mem[m.pc - m.base..m.pc - m.base + |b|] == b
  }

  // Numbers as bit vectors.

  function Narrow(h: uint16): bv16 {
    h as bv16
  }

  function Number(p: bv16): uint16 {
    p as int
  }

  lemma ParcelIs(h: uint16)
    ensures Parcel(h) == Narrow(h) as bv32
  {
  }

  lemma NarrowNumber(p: bv16)
    ensures Narrow(Number(p)) == p
  {
  }

  lemma NarrowBits(h: uint16)
    ensures Narrow(h) & 1 != 0 <==> h % 2 == 1
    ensures Narrow(h) & 2 != 0 <==> h / 2 % 2 == 1
  {
  }

  lemma WideBits(w: uint32)
    ensures Vector(w) & 1 != 0 <==> w % 2 == 1
    ensures Vector(w) & 2 != 0 <==> w / 2 % 2 == 1
  {
  }

  lemma VectorValue(w: bv32)
    ensures Vector(Value(w)) == w
  {
  }

  lemma TwoLowBits(p: bv16, w: bv32)
    ensures (p as bv32) & 3 == 3 <==> p & 1 != 0 && p & 2 != 0
    ensures w & 3 == 3 <==> w & 1 != 0 && w & 2 != 0
  {
  }

  lemma ModuloFour(n: nat)
    ensures n % 4 == 3 <==> n % 2 == 1 && n / 2 % 2 == 1
  {
  }

  lemma LowHalfModuloFour(n: nat)
    ensures n % 0x1_0000 % 4 == n % 4
  {
    var q := n / 0x1_0000;
    assert n == n % 0x1_0000 + 4 * (0x4000 * q);
  }

  /** The two low bits of the first parcel tell the lengths apart, as those of the whole word do. */
  lemma LengthBits(w: uint32)
    ensures Compressed(w % 0x1_0000) <==> Vector(w) & 3 != 3
  {
    hide Parcel, Narrow, Vector;
    var h: uint16 := w % 0x1_0000;
    ParcelIs(h);
    NarrowBits(h);
    WideBits(w);
    TwoLowBits(Narrow(h), Vector(w));
    ModuloFour(h);
    ModuloFour(w);
    LowHalfModuloFour(w);
  }

  /** Every 32-bit encoding ends in two set bits. */
  lemma EncodedIsWide(i: Instr)
    requires Encodable(i)
    ensures Encode(i) & 3 == 3
  {
    hide Fits;
  }

  lemma WordParts(m: Machine)
    ensures WordAt(m, m.pc) % 0x1_0000 == HalfAt(m, m.pc)
    ensures WordMapped(m, m.pc) ==> HalfMapped(m, m.pc)
  {
    hide ByteAt, Mapped;
  }

  /** An encoded instruction in memory is the instruction that a step executes, four bytes long. */
  lemma EncodedRuns(env: Env, m: Machine, i: Instr)
    requires Encodable(i) && !IsHost(env, m.pc) && AtPc(m, Bytes32(Value(Encode(i))))
    ensures Step(env, m) == Execute(m, i, 4)
  {
    hide Encode, Decode, Execute, Exec16, Compressed, Vector, HalfAt, WordAt, HalfMapped, WordMapped, Value;
    hide Bytes32, IsHost;
    Dispatch.WordOfBytes(m, m.pc - m.base, Value(Encode(i)));
    WordParts(m);
    LengthBits(Value(Encode(i)));
    VectorValue(Encode(i));
    EncodedIsWide(i);
    DecodeEncode(i);
  }

  /** The two bytes of a parcel. */
  function ParcelBytes(c: bv32): (b: seq<uint8>)
    ensures |b| == 2
  {
    Bytes16(Number(Low16(c)))
  }

  function Low16(c: bv32): bv16 {
    (c & 0xffff) as bv16
  }

  lemma ParcelNumber(c: bv32)
    requires IsParcel(c)
    ensures Parcel(Number(Low16(c))) == c && Compressed(Number(Low16(c)))
  {
    hide Parcel, Number, Narrow;
    ParcelIs(Number(Low16(c)));
    NarrowNumber(Low16(c));
  }

  /** A parcel in memory is what a step executes. */
  lemma ParcelRuns(env: Env, m: Machine, c: bv32)
    requires IsParcel(c) && !IsHost(env, m.pc) && AtPc(m, ParcelBytes(c))
    ensures Step(env, m) == Exec16(env, m, c)
  {
    hide Exec16, Compressed, HalfAt, HalfMapped, Number, Parcel, Bytes16, IsHost;
    Dispatch.HalfOfBytes(m, m.pc - m.base, Number(Low16(c)));
    ParcelNumber(c);
  }

  /**
   * The short form of an instruction in memory does, in two bytes, what the instruction does; where that traps, so does
   * the step. C.JALR x1 is the exception.
   */
  lemma CompressedRuns(env: Env, m: Machine, i: Instr)
    requires Compress(i).Some? && !LinkClobbers(i)
    requires !IsHost(env, m.pc) && AtPc(m, ParcelBytes(Compress(i).value))
    ensures Execute(m, i, 2).Done? ==> Step(env, m) == Execute(m, i, 2)
    ensures Execute(m, i, 2).Trapped? ==> Step(env, m).Trapped?
  {
    hide Compress, Listing, Execute, Step, IsParcel, AtPc;
    CompressLists(i);
    ParcelRuns(env, m, Compress(i).value);
    CompressedNarrow(i);
  }

  /** Short shifts are by less than 32. */
  lemma CompressedNarrow(i: Instr)
    requires Compress(i).Some?
    ensures !WideShift(i)
  {
  }

  // What a step costs.

  /** The cycles of the calibrated profile, by what the instruction is. */
  function Cost(i: Instr, taken: bool): nat {
    match i
    case Branch(_, _, _, _) => if taken then 3 else 1
    case Jal(_, _) => 3
    case Jalr(_, _, _) => 3
    case Load(_, _, _, _, _) => 3
    case Store(_, _, _, _) => 2
    case OpImm(op, _, _, _) => if op in {Sll, Srl, Sra} then 2 else 1
    case Op(op, _, _, _) => if op in {Sll, Srl, Sra} then 2 else 1
    case MulDiv(mop, _, _, _) => if mop in {Mul, Mulh, Mulhsu, Mulhu} then 4 else 16
    case Lr(_, _) => 8
    case Sc(_, _, _) => 8
    case Amo(_, _, _, _) => 8
    case Csr(_, _, _) => 2
    case Ecall => 2
    case _ => 1
  }

  function CostAt(m: Machine, i: Instr): nat {
    if m.mode == Accurate then Cost(i, i.Branch? && Taken(i.cond, RegAt(m, i.rs1), RegAt(m, i.rs2))) else 1
  }

  lemma AtomicCharges(m: Machine, i: Instr, next: uint32)
    requires (i.Lr? || i.Sc? || i.Amo? || i.BadAtomic?) && ExecuteAtomic(m, i, next).Done?
    ensures ExecuteAtomic(m, i, next).m.cycles == U64(m.cycles + CostAt(m, i))
  {
    hide AmoResult, WordAt, WordMapped, Writable, U64;
  }

  lemma ExecuteCharges(m: Machine, i: Instr, length: uint32)
    requires Execute(m, i, length).Done?
    ensures Execute(m, i, length).m.cycles == U64(m.cycles + CostAt(m, i))
  {
    hide Alu, MulDivide, Readable, Loaded, CounterValue, Taken, Writable, ExecuteAtomic, Value, U32, U64, RegAt, Even;
    hide CostAt, Stored;
    if i.Lr? || i.Sc? || i.Amo? || i.BadAtomic? {
      AtomicCharges(m, i, U32(m.pc + length));
    } else if i.Op? || i.OpImm? || i.MulDiv? {
      ArithmeticCharges(m, i, length);
    } else if i.Load? || i.Store? {
      MemoryCharges(m, i, length);
    } else {
      OtherCharges(m, i, length);
    }
  }

  lemma MemoryCharges(m: Machine, i: Instr, length: uint32)
    requires (i.Load? || i.Store?) && Execute(m, i, length).Done?
    ensures Execute(m, i, length).m.cycles == U64(m.cycles + CostAt(m, i))
  {
    hide Readable, Loaded, Writable, Value, U32, U64, RegAt;
  }

  lemma ArithmeticCharges(m: Machine, i: Instr, length: uint32)
    requires i.Op? || i.OpImm? || i.MulDiv?
    ensures Execute(m, i, length).m.cycles == U64(m.cycles + CostAt(m, i))
  {
    hide Alu, MulDivide, Value, U32, U64, RegAt;
  }

  lemma OtherCharges(m: Machine, i: Instr, length: uint32)
    requires !(i.Lr? || i.Sc? || i.Amo? || i.BadAtomic? || i.Op? || i.OpImm? || i.MulDiv? || i.Load? || i.Store?)
    requires Execute(m, i, length).Done?
    ensures Execute(m, i, length).m.cycles == U64(m.cycles + CostAt(m, i))
  {
    hide CounterValue, Taken, Value, U32, U64, RegAt, Even;
  }

  lemma Exec16Charges(env: Env, m: Machine, c: bv32)
    requires Exec16(env, m, c).Done?
    ensures Exec16(env, m, c).m.cycles == U64(m.cycles + CostAt(m, Listing(c)))
  {
    hide Listing, Execute, Taken, U32, U64, RegAt, Even;
    if Execute(m, Listing(c), 2).Done? { ExecuteCharges(m, Listing(c), 2); }
  }

  /**
   * A completed guest step charges what its instruction costs, compressed or not, in accurate mode, and one cycle in
   * the other modes.
   */
  lemma StepCharges(env: Env, m: Machine)
    requires !IsHost(env, m.pc) && Step(env, m).Done?
    ensures Step(env, m).m.cycles == U64(m.cycles + CostAt(m, Fetched(m).value))
  {
    hide Listing, Decode, Execute, Exec16, CostAt, IsHost, HalfMapped, HalfAt, WordMapped, WordAt, U64, Compressed;
    hide Vector;
    if Compressed(HalfAt(m, m.pc)) {
      Exec16Charges(env, m, Parcel(HalfAt(m, m.pc)));
    } else {
      ExecuteCharges(m, Fetched(m).value, 4);
    }
  }

  /**
   * A host call charges for the arguments it was called with, whatever it does to the registers, and only in accurate
   * mode; it retires nothing.
   */
  lemma HostStepCharges(env: Env, m: Machine)
    requires IsHost(env, m.pc)
    ensures Step(env, m).Done? && Step(env, m).m.retired == m.retired
    ensures Step(env, m).m.cycles ==
      if m.mode == Accurate then U64(m.cycles + AbiCycles(HostIndex(env, m.pc), m.x[10..18])) else m.cycles
  {
    hide IsHost, HostIndex, ActAll, AbiCycles, Exec16, Exec32;
    ActKeepsSettings(m, env.call(HostIndex(env, m.pc), m).actions);
  }

  /**
   * The two halves of a counter make the whole: in accurate mode the cycles, the nanoseconds of a 160 MHz clock as far
   * as they fit 64 bits, and the retired instructions; in the other modes always the retired instructions.
   */
  lemma CounterReads(m: Machine, counter: Counter, rd: Isa.Reg)
    requires rd != 0
    ensures var low, high := Execute(m, Csr(counter, false, rd), 4), Execute(m, Csr(counter, true, rd), 4);
      && low.Done? && high.Done?
      && TWO32 * RegAt(high.m, rd) + RegAt(low.m, rd) ==
         if m.mode == Accurate && counter == Cycle then m.cycles
         else if m.mode == Accurate && counter == Time then Min(m.cycles * 25 / 4, TWO64 - 1)
         else m.retired
  {
    hide Nanoseconds;
    NanosecondsExact(m.cycles);
  }
}
