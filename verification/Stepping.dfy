/** One step of the machine: a host call, a compressed instruction or a 32-bit one. */
module Stepping {
  import opened Words
  import opened Isa
  import opened Clock
  import opened Semantics
  import opened Rvc

  datatype HostAction =
    | SetReg(r: Isa.Reg, value: uint32)
    | StoreMem(width: Width, address: uint32, value: uint32)

  /** What a host call does to the guest, in order, and the runtime state it leaves behind. */
  datatype HostEffect = HostEffect(actions: seq<HostAction>, host: seq<uint8>)

  /**
   * The surroundings of the interpreter: where the host range lies, what host call k does (any deterministic
   * function of the machine), and whatever the compiler makes of a 32-bit shift by 32 or more.
   */
  datatype Env = Env(
    hostBase: uint32, hostCount: uint32,
    call: (uint32, Machine) -> HostEffect,
    wideShift: (AluOp, uint32, bv32) -> uint32)

  /** The word a compressed load has put together when it finds out that the load failed. */
  function PartialLoad(m: Machine, i: Instr): uint32
    requires i.Load?
  {
    WordAt(m, U32(RegAt(m, i.rs1) + Value(i.offset)))
  }

  function Exec16(env: Env, m: Machine, c: bv32): Outcome {
    var i := Listing(c);
    var next := U32(m.pc + 2);
    if WideShift(i) then Finish(Write(m, i.rd, env.wideShift(i.op, RegAt(m, i.rs1), i.imm)), next, ShiftTime)
    else if LinkClobbers(i) then Finish(Write(m, 1, next), Even(next), JumpTime)
    else
      var r := Execute(m, i, 2);
      if r.Trapped? && i.Load? then Trapped(Silent, Write(m, i.rd, PartialLoad(m, i)))
      else if r.Trapped? && i.Store? then Trapped(Silent, m)
      else r
  }

  /** The 32-bit word that the ISA gives for a compressed instruction. */
  function Expansion(c: bv32): bv32
    requires Encodable(Listing(c))
  {
    Encode(Listing(c))
  }

  /** No compressed instruction stands for an atomic or a system instruction. */
  predicate Compressible(i: Instr) {
    i.OpImm? || i.Op? || i.Lui? || i.Load? || i.Store? || i.Jal? || i.Jalr? || i.Branch? || i.Illegal?
  }

  lemma ListingCompressible(c: bv32)
    ensures Compressible(Listing(c))
  {
  }

  /**
   * A compressed instruction has exactly the effect that the interpreter's 32-bit path has on its expansion from
   * the same state, two bytes long instead of four. When that path traps, so does the compressed one, and only
   * the destination of a faulting load differs.
   */
  lemma ExpansionPreservesMeaning(env: Env, m: Machine, c: bv32)
    requires Encodable(Listing(c)) && !LinkClobbers(Listing(c))
    ensures var i, r := Listing(c), Execute(m, Decode(Expansion(c)), 2);
      if r.Done? then Exec16(env, m, c) == r
      else && r.m == m && Exec16(env, m, c).Trapped?
           && Exec16(env, m, c).m == if i.Load? then Write(m, i.rd, PartialLoad(m, i)) else m
  {
    hide Listing, Encode, Decode;
    DecodeEncode(Listing(c));
    ListingCompressible(c);
  }

  /** C.JALR x1 overwrites its own target; it agrees with JALR exactly when that makes no difference. */
  lemma LinkClobberExact(env: Env, m: Machine, c: bv32)
    requires Encodable(Listing(c)) && LinkClobbers(Listing(c))
    ensures Exec16(env, m, c) == Execute(m, Decode(Expansion(c)), 2)
            <==> Even(RegAt(m, 1)) == Even(U32(m.pc + 2))
  {
    hide Listing, Encode, Decode, Execute, Exec16, Finish, Write, RegAt, Even, U32;
    DecodeEncode(Listing(c));
    ClobberedListing(c);
    ClobberedOutcome(env, m, c);
    JalrOutcome(m);
    FinishTarget(Write(m, 1, U32(m.pc + 2)), Even(U32(m.pc + 2)), Even(RegAt(m, 1)), JumpTime);
  }

  lemma ClobberedOutcome(env: Env, m: Machine, c: bv32)
    requires Listing(c) == Jalr(1, 1, 0)
    ensures Exec16(env, m, c) == Finish(Write(m, 1, U32(m.pc + 2)), Even(U32(m.pc + 2)), JumpTime)
  {
    hide Listing, Finish, Write, Even, U32;
  }

  lemma JalrOutcome(m: Machine)
    ensures Execute(m, Jalr(1, 1, 0), 2) == Finish(Write(m, 1, U32(m.pc + 2)), Even(RegAt(m, 1)), JumpTime)
  {
    hide Finish, Write, Even, RegAt;
    assert Value(0) == 0;
  }

  lemma FinishTarget(m: Machine, a: uint32, b: uint32, t: Timing)
    ensures Finish(m, a, t) == Finish(m, b, t) <==> a == b
  {
  }

  lemma ClobberedListing(c: bv32)
    requires LinkClobbers(Listing(c))
    ensures Listing(c) == Jalr(1, 1, 0)
  {
    hide Bit, Sext;
  }

  /** C.JALR x1 at the address most packages are loaded at goes somewhere else than its expansion. */
  lemma LinkClobberDiffers(env: Env, m: Machine)
    requires m.base == m.pc == 0x4080_0000 && |m.mem| >= 2 && m.mem[0] == 0x82 && m.mem[1] == 0x90
    requires m.x[1] == 0x4080_0100 && !IsHost(env, m.pc)
    ensures Encodable(Listing(0x9082))
    ensures Step(env, m).Done? && Step(env, m).m.pc == 0x4080_0002
    ensures Execute(m, Decode(Expansion(0x9082)), 2).Done? && Execute(m, Decode(Expansion(0x9082)), 2).m.pc == 0x4080_0100
  {
    hide Encode, Decode, IsHost, Exec16, Execute, Listing;
    JalrX1();
    assert HalfMapped(m, m.pc) && HalfAt(m, m.pc) == 0x9082;
    ClobberedOutcome(env, m, 0x9082);
    JalrOutcome(m);
    DecodeEncode(Jalr(1, 1, 0));
  }

  lemma JalrX1()
    ensures Parcel(0x9082) == 0x9082 && Compressed(0x9082) && Listing(0x9082) == Jalr(1, 1, 0)
    ensures Encodable(Jalr(1, 1, 0))
  {
  }

  /**
   * Guest memory in which no word is read around the end of the address space. It may reach past that end, as the
   * memory of some loaded packages does: a wrapped address lies below a base that is not 0.
   */
  predicate Sized(m: Machine) {
    m.base != 0 || |m.mem| < TWO32
  }

  /** A word that can be loaded can also be stored: an atomic's store never fails after its load. */
  lemma ReadableIsWritable(m: Machine, a: uint32)
    requires Sized(m) && WordMapped(m, a)
    ensures Writable(m, Word, a)
  {
  }

  /** For memory up to the size of the address space that condition is exact. */
  lemma ReadableIsWritableExactly(m: Machine)
    requires |m.mem| <= TWO32
    ensures (forall a: uint32 | WordMapped(m, a) :: Writable(m, Word, a)) <==> Sized(m)
  {
    if !Sized(m) {
      assert WordMapped(m, TWO32 - 1);
    }
  }

  // Host calls.
  function Act(m: Machine, action: HostAction): Machine {
    match action
    case SetReg(r, value) => Write(m, r, value)
    case StoreMem(width, a, value) => if Writable(m, width, a) then Stored(m, width, a, value) else m
  }

  function ActAll(m: Machine, actions: seq<HostAction>): Machine
    decreases |actions|
  {
    if actions == [] then m else ActAll(Act(m, actions[0]), actions[1..])
  }

  /** Which host call an address in the host range names. */
  function HostIndex(env: Env, pc: uint32): uint32
    requires IsHost(env, pc)
  {
    (pc - env.hostBase) / 4
  }

  predicate IsHost(env: Env, pc: uint32) {
    env.hostBase <= pc < U32(env.hostBase + U32(4 * env.hostCount)) && (pc - env.hostBase) % 4 == 0
  }

  /** The host range is the addresses four bytes apart from its base up to its end, and each names its own call. */
  lemma HostAddressesExactly(env: Env, pc: uint32)
    ensures IsHost(env, pc) <==> exists k: nat :: HostAddress(env, pc, k)
    ensures forall k: nat | HostAddress(env, pc, k) :: HostIndex(env, pc) == k
  {
    if IsHost(env, pc) { assert HostAddress(env, pc, HostIndex(env, pc)); }
  }

  predicate HostAddress(env: Env, pc: uint32, k: nat) {
    pc == env.hostBase + 4 * k && pc < U32(env.hostBase + 4 * env.hostCount)
  }

  /** Host call k: its actions in order and, in accurate mode, its charge. */
  function HostCall(env: Env, m: Machine, k: uint32): Machine {
    var effect := env.call(k, m);
    var m1 := ActAll(m, effect.actions).(host := effect.host);
    m1.(cycles := U64(m1.cycles + if m.mode == Accurate then AbiCycles(k, m.x[10..18]) else 0))
  }

  /** A host call and its return through ra. */
  function HostStep(env: Env, m: Machine): Machine
    requires IsHost(env, m.pc)
  {
    var m1 := HostCall(env, m, HostIndex(env, m.pc));
    m1.(pc := m1.x[1])
  }

  /** The first half of an instruction, as bits. */
  function Parcel(h: uint16): bv32 {
    (h as bv16) as bv32
  }

  predicate Compressed(h: uint16) {
    Parcel(h) & 3 != 3
  }

  function Step(env: Env, m: Machine): Outcome {
    if IsHost(env, m.pc) then Done(HostStep(env, m))
    else if !HalfMapped(m, m.pc) then Trapped(FetchFault, m)
    else if Compressed(HalfAt(m, m.pc)) then Exec16(env, m, Parcel(HalfAt(m, m.pc)))
    else if !WordMapped(m, m.pc) then Trapped(Truncated, m)
    else Exec32(m, Vector(WordAt(m, m.pc)))
  }

  /** The instruction a guest step executes, if it can be fetched. */
  function Fetched(m: Machine): Option<Instr> {
    if !HalfMapped(m, m.pc) then None
    else if Compressed(HalfAt(m, m.pc)) then Some(Listing(Parcel(HalfAt(m, m.pc))))
    else if !WordMapped(m, m.pc) then None
    else Some(Decode(Vector(WordAt(m, m.pc))))
  }

  predicate CompressedLoad(m: Machine) {
    HalfMapped(m, m.pc) && Compressed(HalfAt(m, m.pc)) && Listing(Parcel(HalfAt(m, m.pc))).Load?
  }

  /** The bytes a memory instruction may write: the natural width at its effective address. */
  function EffectiveAddress(m: Machine, i: Instr): uint32 {
    match i
    case Store(_, rs1, _, offset) => U32(RegAt(m, rs1) + Value(offset))
    case Sc(_, rs1, _) => RegAt(m, rs1)
    case Amo(_, _, rs1, _) => RegAt(m, rs1)
    case _ => 0
  }

  predicate WritesMemory(i: Instr) {
    i.Store? || i.Sc? || i.Amo?
  }

  /** The machine's settings and memory size, and everything outside the four addressed bytes, are untouched. */
  predicate Confined(m: Machine, m': Machine, i: Instr) {
    && m'.base == m.base && m'.mode == m.mode && m'.input == m.input && m'.host == m.host
    && |m'.mem| == |m.mem|
    && (forall k | 0 <= k < |m.mem| && m'.mem[k] != m.mem[k] ::
          WritesMemory(i) && EffectiveAddress(m, i) <= m.base + k < EffectiveAddress(m, i) + 4)
  }

  lemma StoredConfined(m: Machine, width: Width, a: uint32, v: uint32)
    requires Writable(m, width, a)
    ensures var m' := Stored(m, width, a, v);
      && m' == m.(mem := m'.mem, reserved := false) && |m'.mem| == |m.mem|
      && forall k | 0 <= k < |m.mem| && m'.mem[k] != m.mem[k] :: a <= m.base + k < a + Bytes(width)
  {
  }

  lemma AtomicConfined(m: Machine, i: Instr, next: uint32)
    requires i.Lr? || i.Sc? || i.Amo? || i.BadAtomic?
    ensures var r := ExecuteAtomic(m, i, next);
      && (r.Done? ==> Confined(m, r.m, i) && r.m.retired == U64(m.retired + 1))
      && (r.Trapped? && Sized(m) ==> r.m == m)
  {
    hide WordAt, WordMapped, Stored, AmoResult, Writable, U64, RegAt, InstructionCycles;
    var a := RegAt(m, i.rs1);
    if WordMapped(m, a) {
      if Sized(m) { ReadableIsWritable(m, a); }
      if i.Sc? && Writable(m, Word, a) { StoredConfined(m, Word, a, RegAt(m, i.rs2)); }
      if i.Amo? && Writable(m, Word, a) {
        StoredConfined(m, Word, a, AmoResult(i.aop, WordAt(m, a), RegAt(m, i.rs2)));
      }
    }
  }

  /** Completed: one retirement and a confined change. Refused: no change at all. */
  lemma ExecuteConfined(m: Machine, i: Instr, length: uint32)
    ensures var r := Execute(m, i, length);
      && (r.Done? ==> Confined(m, r.m, i) && r.m.retired == U64(m.retired + 1))
      && (r.Trapped? && Sized(m) ==> r.m == m)
  {
    hide Alu, MulDivide, Readable, Loaded, CounterValue, Taken, Stored, Writable, ExecuteAtomic;
    hide Value, U32, U64, RegAt, Even, InstructionCycles;
    if i.Lr? || i.Sc? || i.Amo? || i.BadAtomic? {
      AtomicConfined(m, i, U32(m.pc + length));
    }
    if i.Store? && Writable(m, i.width, EffectiveAddress(m, i)) {
      StoredConfined(m, i.width, EffectiveAddress(m, i), RegAt(m, i.rs2));
    }
  }

  /** A failing step changes nothing, but a faulting compressed load has written its destination already. */
  lemma TrapIsPrecise(env: Env, m: Machine)
    requires Sized(m) && Step(env, m).Trapped?
    ensures Step(env, m).m ==
      if CompressedLoad(m) then Write(m, Fetched(m).value.rd, PartialLoad(m, Fetched(m).value)) else m
    ensures Step(env, m).m == m <==> !CompressedLoad(m) || KeepsDestination(m, Fetched(m).value)
  {
    hide Listing, Decode, Execute;
    match Fetched(m)
    case None =>
    case Some(i) =>
      ExecuteConfined(m, i, 4);
      ExecuteConfined(m, i, 2);
      if i.Load? { WriteChanges(m, i.rd, PartialLoad(m, i)); }
  }

  /** The early write of a load makes no difference: x0, or the word it put together is there already. */
  predicate KeepsDestination(m: Machine, i: Instr)
    requires i.Load?
  {
    i.rd == 0 || RegAt(m, i.rd) == PartialLoad(m, i)
  }

  lemma WriteChanges(m: Machine, r: Isa.Reg, v: uint32)
    ensures Write(m, r, v) == m <==> r == 0 || RegAt(m, r) == v
  {
    if RegAt(m, r) == v { assert m.x[r as int := v] == m.x; }
  }

  /** C.LW x8, 0(x9) with x9 outside memory: the load fails, and x8 is lost. */
  lemma FaultingLoadLosesDestination(env: Env, m: Machine)
    requires m.base == m.pc == 0x1000 && m.mem == [0x80, 0x40] && !IsHost(env, m.pc)
    requires m.x[8] == 5 && m.x[9] == 0
    ensures Step(env, m) == Trapped(Silent, m.(x := m.x[8 := 0])) && Step(env, m).m != m
  {
    hide IsHost;
    assert HalfMapped(m, m.pc) && HalfAt(m, m.pc) == 0x4080;
    LwOfX9();
    assert PartialLoad(m, Listing(0x4080)) == 0;
    assert m.(x := m.x[8 := 0]).x[8] != m.x[8];
  }

  lemma LwOfX9()
    ensures Parcel(0x4080) == 0x4080 && Compressed(0x4080) && Listing(0x4080) == Load(Word, true, 8, 9, 0)
  {
  }

  /** A completed guest instruction retires once and changes at most the four bytes it addresses. */
  lemma GuestStepConfined(env: Env, m: Machine)
    requires !IsHost(env, m.pc) && Step(env, m).Done?
    ensures Fetched(m).Some? && Confined(m, Step(env, m).m, Fetched(m).value)
    ensures Step(env, m).m.retired == U64(m.retired + 1)
  {
    hide Listing, Decode, Execute, Confined, Exec16, IsHost, HalfMapped, HalfAt, WordMapped, WordAt, U64, Compressed;
    if Compressed(HalfAt(m, m.pc)) {
      Exec16Confined(env, m, Parcel(HalfAt(m, m.pc)));
    } else {
      ExecuteConfined(m, Fetched(m).value, 4);
    }
  }

  lemma Exec16Confined(env: Env, m: Machine, c: bv32)
    requires Exec16(env, m, c).Done?
    ensures var r := Exec16(env, m, c).m; Confined(m, r, Listing(c)) && r.retired == U64(m.retired + 1)
  {
    hide Listing, Execute, U64, RegAt, U32, Even;
    ExecuteConfined(m, Listing(c), 2);
  }
}
