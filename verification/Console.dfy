/** The runtime object around the interpreter: loading a cartridge and the two ways of running a frame. */
module Console {
  import opened Words
  import opened Clock
  import opened Semantics
  import opened Stepping
  import opened Frames
  import opened Cpu
  import opened Cartridges

  const HOST_BASE: uint32 := 0xf000_0000
  const ABI_FUNCTIONS: nat := 144
  const TABLE_HEADER_BYTES: nat := 20
  const TABLE_BYTES: nat := TABLE_HEADER_BYTES + 4 * ABI_FUNCTIONS
  const ABI_MINOR: uint16 := 8
  const CURRENT_HASH: uint32 := 0x71b9_3e23
  const COMPATIBLE_HASHES: set<uint32> := {CURRENT_HASH, 0x0064_27c2, 0x6be6_e8d0, 0x260f_6136, 0xb384_5925}
  const PROVIDED_FEATURES: uint32 := 0x1dd
  const CALL_BUDGET: nat := 10_000_000
  const LONG_BUDGET: nat := 20_000_000

  datatype LoadError = NotPortable | IncompatibleHash | UnavailableFeatures

  predicate Portable(c: Cartridge) {
    (c.header.flags / 4) % 2 == 1 && c.importModel == IMPORT_MODEL_ABI_TABLE
  }

  predicate FeaturesProvided(c: Cartridge) {
    And32(c.requiredFeatures, TWO32 - 1 - PROVIDED_FEATURES) == 0
  }

  predicate Loadable(c: Cartridge) {
    Portable(c) && c.abiHash in COMPATIBLE_HASHES && FeaturesProvided(c)
  }

  // The ABI table.
  function TableHeader(): (b: seq<uint8>)
    ensures |b| == TABLE_HEADER_BYTES
  {
    Bytes32(0x4942_4150) + Bytes16(1) + Bytes16(ABI_MINOR) + Bytes16(TABLE_BYTES) + Bytes16(ABI_FUNCTIONS)
    + Bytes32(CURRENT_HASH) + Bytes32(PROVIDED_FEATURES)
  }

  function TableWords(n: nat): (b: seq<uint8>)
    requires n <= ABI_FUNCTIONS
    ensures |b| == 4 * n
  {
    if n == 0 then [] else TableWords(n - 1) + Bytes32(HOST_BASE + 4 * (n - 1))
  }

  function Table(): (b: seq<uint8>)
    ensures |b| == TABLE_BYTES
  {
    TableHeader() + TableWords(ABI_FUNCTIONS)
  }

  /** `b` written over `s` at offset `o`. */
  function Splice(s: seq<uint8>, o: nat, b: seq<uint8>): (r: seq<uint8>)
    requires o + |b| <= |s|
    ensures |r| == |s|
  {
    s[..o] + b + s[o + |b|..]
  }

  function Padded(payload: seq<uint8>, n: nat): (b: seq<uint8>)
    ensures |b| == n
  {
    seq(n, i requires 0 <= i < n => if i < |payload| then payload[i] else 0)
  }

  /** Guest memory right after a load: the payload, the ABI table on its page, zeros elsewhere. */
  function Image(c: Cartridge): (b: seq<uint8>)
    ensures |b| == Allocated(c.header)
  {
    Splice(Padded(c.payload, Allocated(c.header)), AbiOffset(c.header), Table())
  }

  function PlanOf(h: Header): Plan {
    Plan(U32(BaseOf(h) + h.updateOffset), U32(BaseOf(h) + h.drawOffset), U32(BaseOf(h) + AbiOffset(h)),
         CALL_BUDGET, LONG_BUDGET)
  }

  method Write16(m: array<uint8>, o: nat, v: uint16)
    requires o + 2 <= m.Length
    modifies m
    ensures m[..] == Splice(old(m[..]), o, Bytes16(v))
  {
    m[o] := v % 0x100;
    m[o + 1] := v / 0x100;
  }

  method Write32(m: array<uint8>, o: nat, v: uint32)
    requires o + 4 <= m.Length
    modifies m
    ensures m[..] == Splice(old(m[..]), o, Bytes32(v))
  {
    var rest := v;
    for i := 0 to 4
      invariant forall k | 0 <= k < m.Length && !(o <= k < o + i) :: m[k] == old(m[k])
      invariant forall k | 0 <= k < i :: m[o + k] == Bytes32(v)[k]
      invariant rest == [v, v / 0x100, v / 0x1_0000, v / 0x100_0000, 0][i]
    {
      m[o + i] := rest % 0x100;
      rest := rest / 0x100;
    }
  }

  /** Writing on from where a write ended is one longer write. */
  lemma SpliceOn(s: seq<uint8>, o: nat, a: seq<uint8>, b: seq<uint8>)
    requires o + |a| + |b| <= |s|
    ensures Splice(Splice(s, o, a), o + |a|, b) == Splice(s, o, a + b)
  {
  }

  method WriteTableHeader(m: array<uint8>, o: nat)
    requires o + TABLE_HEADER_BYTES <= m.Length
    modifies m
    ensures m[..] == Splice(old(m[..]), o, TableHeader())
  {
    hide Splice, Bytes16, Bytes32;
    ghost var was, b := m[..], Bytes32(0x4942_4150);
    Write32(m, o, 0x4942_4150);
    SpliceOn(was, o, b, Bytes16(1));
    b := b + Bytes16(1);
    Write16(m, o + 4, 1);
    SpliceOn(was, o, b, Bytes16(ABI_MINOR));
    b := b + Bytes16(ABI_MINOR);
    Write16(m, o + 6, ABI_MINOR);
    SpliceOn(was, o, b, Bytes16(TABLE_BYTES));
    b := b + Bytes16(TABLE_BYTES);
    Write16(m, o + 8, TABLE_BYTES);
    SpliceOn(was, o, b, Bytes16(ABI_FUNCTIONS));
    b := b + Bytes16(ABI_FUNCTIONS);
    Write16(m, o + 10, ABI_FUNCTIONS);
    SpliceOn(was, o, b, Bytes32(CURRENT_HASH));
    b := b + Bytes32(CURRENT_HASH);
    Write32(m, o + 12, CURRENT_HASH);
    SpliceOn(was, o, b, Bytes32(PROVIDED_FEATURES));
    Write32(m, o + 16, PROVIDED_FEATURES);
  }

  /** Installs the table at offset `o` and touches nothing else. */
  method WriteAbiTable(m: array<uint8>, o: nat)
    requires o + TABLE_BYTES <= m.Length
    modifies m
    ensures m[..] == Splice(old(m[..]), o, Table())
  {
    hide Splice, Bytes32, TableHeader;
    ghost var was := m[..];
    WriteTableHeader(m, o);
    assert TableHeader() + TableWords(0) == TableHeader();
    for i := 0 to ABI_FUNCTIONS
      invariant m[..] == Splice(was, o, TableHeader() + TableWords(i))
    {
      Write32(m, o + TABLE_HEADER_BYTES + 4 * i, HOST_BASE + 4 * i);
      SpliceOn(was, o, TableHeader() + TableWords(i), Bytes32(HOST_BASE + 4 * i));
      assert TableHeader() + TableWords(i + 1) == TableHeader() + TableWords(i) + Bytes32(HOST_BASE + 4 * i);
    }
  }

  /** The session a load leaves: a reset machine over the image, an idle frame, the first boundary one period away. */
  function FreshSession(m: Machine, c: Cartridge, mode: Mode): Session {
    Session(m.(x := seq(32, _ => 0), pc := BaseOf(c.header), base := BaseOf(c.header), mem := Image(c),
               reserved := false, retired := 0, cycles := 0, mode := mode),
            Idle, FRAME_CYCLES, 0)
  }

  method NewImage(c: Cartridge) returns (mem: array<uint8>)
    requires |c.payload| == c.header.codeSize
    ensures fresh(mem) && mem[..] == Image(c)
  {
    hide Splice, Table;
    mem := new uint8[Allocated(c.header)](_ => 0);
    forall i | 0 <= i < |c.payload| { mem[i] := c.payload[i]; }
    assert mem[..] == Padded(c.payload, Allocated(c.header));
    WriteAbiTable(mem, AbiOffset(c.header));
  }

  class Runtime {
    const cpu: Rv32Cpu
    var loaded: bool
    var mode: Mode
    var phase: Phase
    var boundary: uint64
    var late: uint64
    var plan: Plan
    var initEntry: uint32

    ghost predicate Valid()
      reads this, cpu, cpu.x, cpu.trace, cpu.trace.ring
    {
      && cpu.Valid() && cpu.trace.Valid() && cpu.env.hostBase == HOST_BASE && cpu.env.hostCount == ABI_FUNCTIONS
      && mode == cpu.mode && plan.callBudget == CALL_BUDGET && plan.resumeBudget == LONG_BUDGET
    }

    /** The run-loop state this object holds. */
    ghost function S(): Session
      requires Valid()
      reads this, cpu, cpu.x, cpu.mem, cpu.trace, cpu.trace.ring
    {
      Session(cpu.M(), phase, boundary, late)
    }

    constructor (env: Env)
      requires env.hostBase == HOST_BASE && env.hostCount == ABI_FUNCTIONS
      ensures Valid() && !loaded
    {
      cpu := new Rv32Cpu(env);
      loaded, mode, phase, boundary, late := false, Accurate, Idle, FRAME_CYCLES, 0;
      plan, initEntry := Plan(0, 0, 0, CALL_BUDGET, LONG_BUDGET), 0;
    }

    /** `c` is a parsed package, so its payload is as long as its header says. */
    method Load(c: Cartridge) returns (error: Option<LoadError>)
      requires Valid() && |c.payload| == c.header.codeSize
      modifies this, cpu, cpu.x, cpu.trace
      ensures Valid() && (error.None? <==> Loadable(c))
      ensures error.None? ==> loaded && S() == FreshSession(old(S()).m, c, mode) && plan == PlanOf(c.header)
      ensures error.None? ==> initEntry == U32(BaseOf(c.header) + c.header.initOffset)
      ensures mode == old(mode) && (error.Some? ==> unchanged(this) && unchanged(cpu) && S() == old(S()))
    {
      hide Rv32Cpu.M, FeaturesProvided, Portable, FreshSession, PlanOf;
      if !Portable(c) { return Some(NotPortable); }
      if c.abiHash !in COMPATIBLE_HASHES { return Some(IncompatibleHash); }
      if !FeaturesProvided(c) { return Some(UnavailableFeatures); }
      Install(c);
      error := None;
    }

    /** What a load does once the package has passed. */
    method Install(c: Cartridge)
      requires Valid() && |c.payload| == c.header.codeSize
      modifies this, cpu, cpu.x, cpu.trace
      ensures Valid() && loaded && mode == old(mode)
      ensures S() == FreshSession(old(S()).m, c, mode) && plan == PlanOf(c.header)
      ensures initEntry == U32(BaseOf(c.header) + c.header.initOffset)
    {
      hide Rv32Cpu.M, Image, BaseOf, U32, GuestBytes, AbiOffset, ScratchOffset, Allocated;
      var h := c.header;
      var mem := NewImage(c);
      cpu.Reset(BaseOf(h), mem);
      cpu.SetMode(mode);
      plan := PlanOf(h);
      initEntry := U32(BaseOf(h) + h.initOffset);
      loaded, boundary, late, phase := true, FRAME_CYCLES, 0, Idle;
    }

    method SetPerformanceMode(mode: Mode)
      requires Valid()
      modifies this`mode, this`boundary, cpu`mode
      ensures Valid() && this.mode == mode
      ensures S() == old(S()).(m := old(S()).m.(mode := mode), boundary := U64(old(S()).m.cycles + FRAME_CYCLES))
    {
      this.mode := mode;
      cpu.SetMode(mode);
      boundary := U64(cpu.Cycles() + FRAME_CYCLES);
    }

    method EndFrame()
      requires Valid()
      modifies this`late, this`boundary, cpu`cycles
      ensures Valid() && S() == Frames.EndFrame(old(S()))
    {
      if mode == Accurate {
        if cpu.Cycles() > boundary { late := U64(late + 1); }
        cpu.AdvanceClockTo(boundary);
        boundary := U64(boundary + FRAME_CYCLES);
      }
    }

    method Init() returns (status: Option<Status>)
      requires Valid()
      modifies cpu`pc, cpu`retired, cpu`cycles, cpu`reserved, cpu`reservation, cpu`host, cpu.x, cpu.mem, cpu.trace,
               cpu.trace.ring
      ensures Valid() && (status.Some? <==> loaded)
      ensures loaded ==>
        Ended(status.value, S().m) == Frames.Call(Interpreter(cpu.env), old(S()).m, initEntry, plan.table, LONG_BUDGET)
      ensures !loaded ==> S() == old(S())
    {
      hide Rv32Cpu.M, Frames.Call;
      if !loaded { return None; }
      var ended := cpu.Call(initEntry, plan.table, LONG_BUDGET);
      status := Some(ended);
    }

    /** One instruction of the current frame, starting a frame when none is under way. */
    method DebugStep(input: uint32) returns (status: Option<Status>)
      requires Valid()
      modifies this`phase, this`late, this`boundary
      modifies cpu`input, cpu`pc, cpu`retired, cpu`cycles, cpu`reserved, cpu`reservation, cpu`host, cpu.x, cpu.mem,
               cpu.trace, cpu.trace.ring
      ensures Valid() && (status.Some? <==> loaded)
      ensures loaded ==> Shown(status.value, S()) == Frames.DebugStep(Interpreter(cpu.env), plan, old(S()), input)
      ensures !loaded ==> S() == old(S())
    {
      hide Rv32Cpu.M, Stepping.Step, Frames.BeginCall, Frames.EndFrame, IsHost, Trace.InstructionTrace.Valid;
      if !loaded { return None; }
      cpu.SetInput(input);
      if phase == Idle {
        cpu.BeginCall(plan.update, plan.table);
        phase := Updating;
      }
      var trap := cpu.Step();
      if trap.Some? { return Some(Failed(trap.value)); }
      if cpu.Pc() != RETURN_SENTINEL { return Some(Completed); }
      if phase == Updating {
        phase := Drawing;
        cpu.BeginCall(plan.draw, plan.table);
        return Some(Completed);
      }
      phase := Idle;
      EndFrame();
      return Some(Completed);
    }

    /** A whole frame; or, after debugger steps, the rest of the one under way. */
    method Frame(input: uint32) returns (status: Option<Status>)
      requires Valid()
      modifies this`phase, this`late, this`boundary
      modifies cpu`input, cpu`pc, cpu`retired, cpu`cycles, cpu`reserved, cpu`reservation, cpu`host, cpu.x, cpu.mem,
               cpu.trace, cpu.trace.ring
      ensures Valid() && (status.Some? <==> loaded)
      ensures loaded ==> Shown(status.value, S()) == Frames.Frame(Interpreter(cpu.env), plan, old(S()), input)
      ensures !loaded ==> S() == old(S())
    {
      hide Rv32Cpu.M, Frames.Call, Frames.DebugStep, Frames.EndFrame, Trace.InstructionTrace.Valid;
      if !loaded { return None; }
      if phase != Idle {
        var budget := LONG_BUDGET;
        while phase != Idle && budget > 0
          invariant Valid()
          invariant Resume(Interpreter(cpu.env), plan, S(), input, budget)
                    == Resume(Interpreter(cpu.env), plan, old(S()), input, LONG_BUDGET)
        {
          budget := budget - 1;
          var step := DebugStep(input);
          if step != Some(Completed) { return step; }
        }
        return Some(if phase != Idle then BudgetExhausted else Completed);
      }
      cpu.SetInput(input);
      var ended := cpu.Call(plan.update, plan.table, CALL_BUDGET);
      if ended != Completed { return Some(ended); }
      ended := cpu.Call(plan.draw, plan.table, CALL_BUDGET);
      if ended != Completed { return Some(ended); }
      EndFrame();
      return Some(Completed);
    }
  }

  function Shown(status: Status, s: Session): FrameResult {
    match status
    case Completed => Finished(s)
    case Failed(trap) => Stopped(trap, s)
    case BudgetExhausted => OutOfBudget(s)
  }
}
