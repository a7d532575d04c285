/** Budgets, retired counts and virtual time over calls, frames and whole sessions. */
module VirtualTime {
  import opened Words
  import opened Isa
  import opened Clock
  import opened Semantics
  import opened Rvc
  import opened Stepping
  import opened Frames

  /** The settings of a machine that no step changes. */
  predicate SameSettings(m: Machine, m': Machine) {
    m'.base == m.base && |m'.mem| == |m.mem| && m'.mode == m.mode && m'.input == m.input
  }

  lemma AtomicTrapRetiresNothing(m: Machine, i: Instr, next: uint32)
    requires (i.Lr? || i.Sc? || i.Amo? || i.BadAtomic?) && ExecuteAtomic(m, i, next).Trapped?
    ensures var m' := ExecuteAtomic(m, i, next).m; SameSettings(m, m') && m'.retired == m.retired
  {
    hide WordAt, WordMapped, AmoResult, Writable, InstructionCycles, RegAt;
  }

  lemma TrapRetiresNothing(env: Env, m: Machine)
    requires Step(env, m).Trapped?
    ensures SameSettings(m, Step(env, m).m) && Step(env, m).m.retired == m.retired
  {
    hide Decode, Execute, Exec16, IsHost, HalfMapped, HalfAt, WordMapped, WordAt, Parcel, Compressed;
    hide HostStep, SameSettings;
    Unchanged(m);
    if HalfMapped(m, m.pc) {
      CompressedTrapRetiresNothing(env, m, Parcel(HalfAt(m, m.pc)));
      ExecuteTrapRetiresNothing(m, Decode(Vector(WordAt(m, m.pc))), 4);
    }
  }

  lemma Unchanged(m: Machine)
    ensures SameSettings(m, m)
  {
  }

  lemma CompressedTrapRetiresNothing(env: Env, m: Machine, c: bv32)
    ensures var r := Exec16(env, m, c); r.Trapped? ==> SameSettings(m, r.m) && r.m.retired == m.retired
  {
    hide Listing, Execute, U32, RegAt, Even, PartialLoad;
    ExecuteTrapRetiresNothing(m, Listing(c), 2);
  }

  lemma ExecuteTrapRetiresNothing(m: Machine, i: Instr, length: uint32)
    ensures var r := Execute(m, i, length); r.Trapped? ==> SameSettings(m, r.m) && r.m.retired == m.retired
  {
    hide Alu, MulDivide, Readable, Loaded, CounterValue, Taken, Writable, InstructionCycles, ExecuteAtomic;
    hide Value, U32, RegAt, Even, U64;
    if (i.Lr? || i.Sc? || i.Amo? || i.BadAtomic?) && ExecuteAtomic(m, i, U32(m.pc + length)).Trapped? {
      AtomicTrapRetiresNothing(m, i, U32(m.pc + length));
    }
  }

  /** A call retires at most its budget of instructions, whether it returns, traps or exhausts that budget. */
  lemma {:induction false} CallRetiresWithinBudget(env: Env, m: Machine, budget: nat) returns (n: nat)
    ensures n <= budget && Run(Interpreter(env), m, budget).m.retired == U64(m.retired + n)
    ensures SameSettings(m, Run(Interpreter(env), m, budget).m)
    decreases budget
  {
    hide Step;
    if !CallActive(m) || budget == 0 {
      n := 0;
    } else if Step(env, m).Trapped? {
      TrapRetiresNothing(env, m);
      n := 0;
    } else {
      StepKeepsSettings(env, m);
      n := CallRetiresWithinBudget(env, Step(env, m).m, budget - 1);
      if Step(env, m).m.retired != m.retired { n := n + 1; }
    }
  }

  /** Outside accurate mode the two counters move together. */
  predicate InStep(m: Machine) {
    m.mode != Accurate ==> m.cycles == m.retired
  }

  lemma AtomicInStep(m: Machine, i: Instr, next: uint32)
    requires InStep(m) && (i.Lr? || i.Sc? || i.Amo? || i.BadAtomic?)
    ensures InStep(ExecuteAtomic(m, i, next).m)
  {
    hide WordAt, WordMapped, AmoResult, Writable, InstructionCycles, RegAt;
  }

  lemma ExecuteInStep(m: Machine, i: Instr, length: uint32)
    requires InStep(m)
    ensures InStep(Execute(m, i, length).m)
  {
    hide Alu, MulDivide, Readable, Loaded, CounterValue, Taken, Writable, InstructionCycles, ExecuteAtomic;
    hide Value, U32, RegAt, Even, U64;
    if i.Lr? || i.Sc? || i.Amo? || i.BadAtomic? { AtomicInStep(m, i, U32(m.pc + length)); }
  }

  lemma CompressedInStep(env: Env, m: Machine, c: bv32)
    requires InStep(m)
    ensures InStep(Exec16(env, m, c).m)
  {
    hide Listing, Execute, InstructionCycles;
    ExecuteInStep(m, Listing(c), 2);
  }

  lemma StepInStep(env: Env, m: Machine)
    requires InStep(m)
    ensures InStep(Step(env, m).m)
  {
    hide HostStep, Exec16, Exec32, HalfAt, WordAt, HalfMapped, WordMapped, InStep;
    if IsHost(env, m.pc) {
      HostInStep(env, m);
    } else {
      CompressedInStep(env, m, Parcel(HalfAt(m, m.pc)));
      WideInStep(m, Vector(WordAt(m, m.pc)));
    }
  }

  lemma WideInStep(m: Machine, w: bv32)
    requires InStep(m)
    ensures InStep(Exec32(m, w).m)
  {
    hide Decode, Execute, InStep;
    ExecuteInStep(m, Decode(w), 4);
  }

  lemma HostInStep(env: Env, m: Machine)
    requires InStep(m) && IsHost(env, m.pc)
    ensures InStep(Step(env, m).m)
  {
    hide ActAll, AbiCycles, Exec16, Exec32;
    ActKeepsSettings(m, env.call(HostIndex(env, m.pc), m).actions);
  }

  lemma {:induction false} RunInStep(env: Env, m: Machine, budget: nat)
    requires InStep(m)
    ensures InStep(Run(Interpreter(env), m, budget).m)
    decreases budget
  {
    hide Step, InStep;
    if !CallActive(m) || budget == 0 {
    } else {
      StepInStep(env, m);
      if Step(env, m).Done? { RunInStep(env, Step(env, m).m, budget - 1); }
    }
  }

  function LeftBy(r: FrameResult): Machine {
    r.s.m
  }

  lemma DebugStepInStep(env: Env, plan: Plan, s: Session, input: uint32)
    requires InStep(s.m)
    ensures InStep(LeftBy(DebugStep(Interpreter(env), plan, s, input)))
  {
    hide Step;
    var m0 := s.m.(input := input);
    StepInStep(env, if s.phase.Idle? then BeginCall(m0, plan.update, plan.table) else m0);
  }

  lemma {:induction false} ResumeInStep(env: Env, plan: Plan, s: Session, input: uint32, budget: nat)
    requires InStep(s.m)
    ensures InStep(LeftBy(Resume(Interpreter(env), plan, s, input, budget)))
    decreases budget
  {
    hide DebugStep, InStep;
    if s.phase.Idle? || budget == 0 {
    } else {
      DebugStepInStep(env, plan, s, input);
      var r := DebugStep(Interpreter(env), plan, s, input);
      if r.Finished? { ResumeInStep(env, plan, r.s, input, budget - 1); }
    }
  }

  lemma FrameInStep(env: Env, plan: Plan, s: Session, input: uint32)
    requires InStep(s.m)
    ensures InStep(LeftBy(Frame(Interpreter(env), plan, s, input)))
  {
    hide Run, Resume;
    ResumeInStep(env, plan, s, input, plan.resumeBudget);
    var first := BeginCall(s.m.(input := input), plan.update, plan.table);
    RunInStep(env, first, plan.callBudget);
    RunInStep(env, BeginCall(Run(Interpreter(env), first, plan.callBudget).m, plan.draw, plan.table), plan.callBudget);
  }

  /** What the runtime does with a loaded cartridge while its timing mode stays fixed. */
  datatype Operation = CallEntry(entry: uint32, budget: nat) | WholeFrame(input: uint32) | SingleStep(input: uint32)

  function MachineAfter(env: Env, plan: Plan, s: Session, op: Operation): Machine {
    match op
    case CallEntry(entry, budget) => Call(Interpreter(env), s.m, entry, plan.table, budget).m
    case WholeFrame(input) => LeftBy(Frame(Interpreter(env), plan, s, input))
    case SingleStep(input) => LeftBy(DebugStep(Interpreter(env), plan, s, input))
  }

  /** The same machine, but for what the host side may have changed in its own state meanwhile. */
  predicate SameGuest(m: Machine, m': Machine) {
    m' == m.(host := m'.host)
  }

  /** Outside accurate mode, virtual cycles equal retired instructions after any operations, failed ones included. */
  lemma {:induction false} CyclesAreRetired(env: Env, plan: Plan, ss: seq<Session>, ops: seq<Operation>, i: nat)
    requires |ss| == |ops| + 1 && i < |ss|
    requires ss[0].m.cycles == 0 == ss[0].m.retired && ss[0].m.mode != Accurate
    requires forall k | 0 <= k < |ops| :: SameGuest(MachineAfter(env, plan, ss[k], ops[k]), ss[k + 1].m)
    requires forall k | 0 <= k < |ss| :: ss[k].m.mode == ss[0].m.mode
    ensures ss[i].m.cycles == ss[i].m.retired
  {
    if i == 0 {
    } else {
      hide Run, Frame, DebugStep;
      var p := i - 1;
      CyclesAreRetired(env, plan, ss, ops, p);
      var s, op := ss[p], ops[p];
      assert SameGuest(MachineAfter(env, plan, s, op), ss[p + 1].m);
      match op
      case CallEntry(entry, budget) => RunInStep(env, BeginCall(s.m, entry, plan.table), budget);
      case WholeFrame(input) => FrameInStep(env, plan, s, input);
      case SingleStep(input) => DebugStepInStep(env, plan, s, input);
    }
  }

  lemma StepRetires(env: Env, m: Machine)
    requires Step(env, m).Done?
    ensures Step(env, m).m.retired == if IsHost(env, m.pc) then m.retired else U64(m.retired + 1)
  {
    hide Step, IsHost;
    if IsHost(env, m.pc) { HostKeepsSettings(env, m); } else { GuestStepConfined(env, m); }
  }

  lemma OneMoreDiffers(n: uint64)
    ensures U64(n + 1) != n
  {
  }

  /** A debugger step retires one instruction exactly when it does not land on a host call, which retires none. */
  lemma DebugStepRetires(env: Env, plan: Plan, s: Session, input: uint32)
    requires DebugStep(Interpreter(env), plan, s, input).Finished?
    ensures var pc := if s.phase.Idle? then plan.update else s.m.pc;
      var after := DebugStep(Interpreter(env), plan, s, input).s.m.retired;
      && after == (if IsHost(env, pc) then s.m.retired else U64(s.m.retired + 1))
      && (IsHost(env, pc) <==> after == s.m.retired)
  {
    hide Step, IsHost, U64;
    var m0 := s.m.(input := input);
    StepRetires(env, if s.phase.Idle? then BeginCall(m0, plan.update, plan.table) else m0);
    OneMoreDiffers(s.m.retired);
  }

  // Accurate mode: frames on a grid.

  /** The cycle count when the frame's draw call has returned, before the clock moves to the boundary. */
  function WorkEnd(env: Env, plan: Plan, s: Session, input: uint32): uint64 {
    var updated := Call(Interpreter(env), s.m.(input := input), plan.update, plan.table, plan.callBudget).m;
    Call(Interpreter(env), updated, plan.draw, plan.table, plan.callBudget).m.cycles
  }

  function LateCount(env: Env, plan: Plan, ss: seq<Session>, inputs: seq<uint32>, n: nat): nat
    requires n <= |inputs| && |ss| == |inputs| + 1
  {
    if n == 0 then 0
    else LateCount(env, plan, ss, inputs, n - 1)
         + if WorkEnd(env, plan, ss[n - 1], inputs[n - 1]) > n * FRAME_CYCLES then 1 else 0
  }

  lemma CallKeepsMode(env: Env, m: Machine, entry: uint32, a0: uint32, budget: nat)
    ensures Call(Interpreter(env), m, entry, a0, budget).m.mode == m.mode
  {
    hide Run;
    var _ := CallRetiresWithinBudget(env, BeginCall(m, entry, a0), budget);
  }

  lemma FrameAdvances(env: Env, plan: Plan, s: Session, input: uint32)
    requires s.phase.Idle? && s.m.mode == Accurate && Frame(Interpreter(env), plan, s, input).Finished?
    ensures var s', work := Frame(Interpreter(env), plan, s, input).s, WorkEnd(env, plan, s, input);
      && s'.phase.Idle? && s'.m.mode == Accurate
      && s'.m.cycles == Max(work, s.boundary) && s'.boundary == U64(s.boundary + FRAME_CYCLES)
      && s'.late == if work > s.boundary then U64(s.late + 1) else s.late
  {
    hide Run;
    var m := s.m.(input := input);
    CallKeepsMode(env, m, plan.update, plan.table, plan.callBudget);
    var updated := Call(Interpreter(env), m, plan.update, plan.table, plan.callBudget).m;
    CallKeepsMode(env, updated, plan.draw, plan.table, plan.callBudget);
  }

  /** The next frame starts from where this one finished, but for the host side's own state. */
  predicate Follows(r: FrameResult, s: Session) {
    r.Finished? && SameGuest(r.s.m, s.m) && s == r.s.(m := s.m)
  }

  /**
   * After n whole frames from a load in accurate mode the clock stands at or past n periods, the next boundary is
   * n + 1 periods, and the late counter has counted exactly the frames whose work passed their boundary.
   */
  lemma {:induction false} FramesKeepTime(env: Env, plan: Plan, ss: seq<Session>, inputs: seq<uint32>, n: nat)
    requires |ss| == |inputs| + 1 && n <= |inputs| && (n + 1) * FRAME_CYCLES < TWO64
    requires ss[0].phase.Idle? && ss[0].m.mode == Accurate && ss[0].boundary == FRAME_CYCLES && ss[0].late == 0
    requires forall k | 0 <= k < |inputs| :: Follows(Frame(Interpreter(env), plan, ss[k], inputs[k]), ss[k + 1])
    ensures ss[n].phase.Idle? && ss[n].m.mode == Accurate
    ensures ss[n].m.cycles >= n * FRAME_CYCLES && ss[n].boundary == (n + 1) * FRAME_CYCLES
    ensures ss[n].late == LateCount(env, plan, ss, inputs, n) <= n
  {
    hide Frame, WorkEnd, Interpreter, Step, U64, Max;
    if n == 0 {
    } else {
      var p := n - 1;
      FramesKeepTime(env, plan, ss, inputs, p);
      assert Follows(Frame(Interpreter(env), plan, ss[p], inputs[p]), ss[p + 1]);
      FrameAdvances(env, plan, ss[p], inputs[p]);
      GridTick(ss[p], ss[n], WorkEnd(env, plan, ss[p], inputs[p]), n);
    }
  }

  /** One period on: the arithmetic of a frame's end when its boundary is n periods and nothing wraps. */
  lemma GridTick(s: Session, s': Session, work: uint64, n: nat)
    requires n > 0 && (n + 1) * FRAME_CYCLES < TWO64 && s.boundary == n * FRAME_CYCLES && s.late < n
    requires s'.m.cycles == Max(work, s.boundary) && s'.boundary == U64(s.boundary + FRAME_CYCLES)
    requires s'.late == if work > s.boundary then U64(s.late + 1) else s.late
    ensures s'.boundary == (n + 1) * FRAME_CYCLES && s'.m.cycles >= n * FRAME_CYCLES
    ensures s'.late == s.late + (if work > n * FRAME_CYCLES then 1 else 0)
  {
  }
}
