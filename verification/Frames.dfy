/** The two ways to run a frame, whole or one instruction at a time, and the virtual frame clock. */
module Frames {
  import opened Words
  import opened Isa
  import opened Clock
  import opened Semantics
  import opened Stepping

  datatype Phase = Idle | Updating | Drawing

  /** The run-loop state of a loaded cartridge. */
  datatype Session = Session(m: Machine, phase: Phase, boundary: uint64, late: uint64)

  /** Entry addresses, the ABI table handed to every call, and the instruction budgets. */
  datatype Plan = Plan(update: uint32, draw: uint32, table: uint32, callBudget: nat, resumeBudget: nat)

  datatype CallResult = Returned(m: Machine) | Faulted(trap: Trap, m: Machine) | Exhausted(m: Machine)
  /** How a frame or a debugger step ended, and the run-loop state it left. */
  datatype FrameResult = Finished(s: Session) | Stopped(trap: Trap, s: Session) | OutOfBudget(s: Session)

  function BeginCall(m: Machine, entry: uint32, a0: uint32): Machine {
    m.(pc := entry, x := m.x[1 := RETURN_SENTINEL][10 := a0][2 := U32(m.base + |m.mem| - |m.mem| % 16)])
  }

  /** One step of whatever executes guest code, deterministic and total. */
  type Stepper = Machine -> Outcome

  /** The interpreter in its surroundings. */
  function Interpreter(env: Env): Stepper {
    (m: Machine) => Step(env, m)
  }

  predicate CallActive(m: Machine) {
    m.pc != RETURN_SENTINEL
  }

  /** Step until the call returns, a trap, or the budget runs out. */
  function Run(step: Stepper, m: Machine, budget: nat): CallResult
    decreases budget
  {
    if !CallActive(m) then Returned(m)
    else if budget == 0 then Exhausted(m)
    else match step(m)
      case Trapped(trap, m') => Faulted(trap, m')
      case Done(m') => Run(step, m', budget - 1)
  }

  function Call(step: Stepper, m: Machine, entry: uint32, a0: uint32, budget: nat): CallResult {
    Run(step, BeginCall(m, entry, a0), budget)
  }

  /** In accurate mode a frame that finishes early waits for its boundary; a late one is counted. */
  function EndFrame(s: Session): Session {
    if s.m.mode != Accurate then s
    else s.(late := if s.m.cycles > s.boundary then U64(s.late + 1) else s.late,
            m := s.m.(cycles := Max(s.m.cycles, s.boundary)),
            boundary := U64(s.boundary + FRAME_CYCLES))
  }

  function DebugStep(step: Stepper, plan: Plan, s: Session, input: uint32): FrameResult {
    var m0 := s.m.(input := input);
    var m1 := if s.phase.Idle? then BeginCall(m0, plan.update, plan.table) else m0;
    var phase := if s.phase.Idle? then Updating else s.phase;
    match step(m1)
    case Trapped(trap, m2) => Stopped(trap, s.(m := m2, phase := phase))
    case Done(m2) =>
      if CallActive(m2) then Finished(s.(m := m2, phase := phase))
      else if phase.Updating? then Finished(s.(m := BeginCall(m2, plan.draw, plan.table), phase := Drawing))
      else Finished(EndFrame(s.(m := m2, phase := Idle)))
  }

  function Resume(step: Stepper, plan: Plan, s: Session, input: uint32, budget: nat): FrameResult
    decreases budget
  {
    if s.phase.Idle? then Finished(s)
    else if budget == 0 then OutOfBudget(s)
    else match DebugStep(step, plan, s, input)
      case Finished(s') => Resume(step, plan, s', input, budget - 1)
      case r => r
  }

  /** Everything after the update call has returned in machine `m`. */
  function DrawAndEnd(step: Stepper, plan: Plan, s: Session, r: CallResult): FrameResult {
    match r
    case Faulted(trap, m) => Stopped(trap, s.(m := m))
    case Exhausted(m) => OutOfBudget(s.(m := m))
    case Returned(m) => Ending(s, Call(step, m, plan.draw, plan.table, plan.callBudget))
  }

  function Ending(s: Session, r: CallResult): FrameResult {
    match r
    case Faulted(trap, m) => Stopped(trap, s.(m := m))
    case Exhausted(m) => OutOfBudget(s.(m := m))
    case Returned(m) => Finished(EndFrame(s.(m := m, phase := Idle)))
  }

  function Frame(step: Stepper, plan: Plan, s: Session, input: uint32): FrameResult {
    if !s.phase.Idle? then Resume(step, plan, s, input, plan.resumeBudget)
    else DrawAndEnd(step, plan, s,
                    Call(step, s.m.(input := input), plan.update, plan.table, plan.callBudget))
  }

  /**
   * A result with the phase of an unfinished frame forgotten: a whole frame that traps or runs out of budget has
   * never left the idle phase, a stepped one stays in the phase it was in.
   */
  function AtRest(r: FrameResult): FrameResult {
    if r.Finished? then r else r.(s := r.s.(phase := Idle))
  }

  /** `j` debugger steps, none of which finishes the frame; None if one traps or finishes it. */
  function PartialFrame(step: Stepper, plan: Plan, s: Session, input: uint32, j: nat): Option<Session>
    decreases j
  {
    if j == 0 then Some(s)
    else match PartialFrame(step, plan, s, input, j - 1)
      case None => None
      case Some(s') =>
        var r := DebugStep(step, plan, s', input);
        if r.Finished? && !r.s.phase.Idle? then Some(r.s) else None
  }

  predicate Playable(plan: Plan) {
    && plan.update != RETURN_SENTINEL && plan.draw != RETURN_SENTINEL
    && plan.resumeBudget >= 2 * plan.callBudget
  }

  ghost predicate KeepsInput(step: Stepper) {
    forall m: Machine | step(m).Done? :: step(m).m.input == m.input
  }

  /**
   * Session `s` is in the middle of a frame with outcome `target`: the rest of the update call, or of the draw
   * call, leads there within the remaining budgets.
   */
  predicate OnTrack(step: Stepper, plan: Plan, s: Session, input: uint32, b: nat, target: FrameResult) {
    && b <= plan.callBudget && CallActive(s.m) && s.m.input == input && !target.OutOfBudget?
    && match s.phase
       case Idle => false
       case Updating => AtRest(DrawAndEnd(step, plan, s, Run(step, s.m, b))) == target
       case Drawing => AtRest(Ending(s, Run(step, s.m, b))) == target
  }

  lemma {:induction false} ActKeepsSettings(m: Machine, actions: seq<HostAction>)
    ensures var m' := ActAll(m, actions);
      && m'.base == m.base && |m'.mem| == |m.mem| && m'.mode == m.mode && m'.input == m.input
      && m'.retired == m.retired && m'.cycles == m.cycles && m'.pc == m.pc
    decreases |actions|
  {
    if actions == [] {
    } else {
      ActKeepsSettings(Act(m, actions[0]), actions[1..]);
    }
  }

  /** A step never changes the input word, the timing mode or the size of memory. */
  lemma StepKeepsSettings(env: Env, m: Machine)
    ensures var r := Step(env, m);
      r.Done? ==> && r.m.base == m.base && |r.m.mem| == |m.mem| && r.m.mode == m.mode && r.m.input == m.input
                  && (r.m.retired == m.retired || r.m.retired == U64(m.retired + 1))
  {
    hide Step;
    if IsHost(env, m.pc) {
      HostKeepsSettings(env, m);
    } else if Step(env, m).Done? {
      GuestStepConfined(env, m);
    }
  }

  lemma HostKeepsSettings(env: Env, m: Machine)
    requires IsHost(env, m.pc)
    ensures Step(env, m).Done?
    ensures var m' := Step(env, m).m;
      && m'.base == m.base && |m'.mem| == |m.mem| && m'.mode == m.mode && m'.input == m.input
      && m'.retired == m.retired
  {
    hide ActAll, AbiCycles, Exec16, Exec32;
    ActKeepsSettings(m, env.call(HostIndex(env, m.pc), m).actions);
  }

  lemma InterpreterKeepsInput(env: Env)
    ensures KeepsInput(Interpreter(env))
  {
    hide Step;
    forall m: Machine | Step(env, m).Done? ensures Step(env, m).m.input == m.input { StepKeepsSettings(env, m); }
  }

  /** One debugger step along a frame that has outcome `target`. */
  lemma DebugStepOnTrack(step: Stepper, plan: Plan, s: Session, input: uint32, b: nat, target: FrameResult)
    requires KeepsInput(step) && Playable(plan) && OnTrack(step, plan, s, input, b, target)
    ensures b > 0
    ensures var r := DebugStep(step, plan, s, input);
      match r
      case Finished(s') =>
        if s'.phase.Idle? then r == target
        else if s'.phase == s.phase then OnTrack(step, plan, s', input, b - 1, target)
        else s.phase.Updating? && OnTrack(step, plan, s', input, plan.callBudget, target)
      case _ => AtRest(r) == target && r.s.phase == s.phase
  {
    assert s.m.(input := input) == s.m;
    match step(s.m)
    case Trapped(_, _) =>
    case Done(m') => assert Run(step, s.m, b) == Run(step, m', b - 1);
  }

  lemma {:induction false} ResumeOnTrack(step: Stepper, plan: Plan, s: Session, input: uint32, b: nat, budget: nat,
                                         target: FrameResult)
    requires KeepsInput(step) && Playable(plan) && OnTrack(step, plan, s, input, b, target)
    requires budget >= if s.phase.Updating? then b + plan.callBudget else b
    ensures var r := Resume(step, plan, s, input, budget); AtRest(r) == target && (r.Finished? || !r.s.phase.Idle?)
    decreases budget
  {
    hide OnTrack, DebugStep;
    Unfinished(step, plan, s, input, b, target);
    DebugStepOnTrack(step, plan, s, input, b, target);
    var r := DebugStep(step, plan, s, input);
    if r.Finished? && !r.s.phase.Idle? {
      ResumeOnTrack(step, plan, r.s, input, if r.s.phase == s.phase then b - 1 else plan.callBudget,
                    budget - 1, target);
    }
  }

  /** The first debugger step of a frame is the same step the whole-frame path takes first. */
  lemma FirstStepOnTrack(step: Stepper, plan: Plan, s: Session, input: uint32)
    requires KeepsInput(step) && Playable(plan) && s.phase.Idle? && !Frame(step, plan, s, input).OutOfBudget?
    ensures var target := Frame(step, plan, s, input);
      var started := s.(phase := Updating, m := BeginCall(s.m.(input := input), plan.update, plan.table));
      && OnTrack(step, plan, started, input, plan.callBudget, target)
      && DebugStep(step, plan, s, input) == DebugStep(step, plan, started, input)
  {
    hide Run;
  }

  /**
   * Any number of debugger steps that leave a frame unfinished leave it on the track of the whole frame. `b` bounds
   * what is left of the current call.
   */
  lemma {:induction false} PartialFrameOnTrack(step: Stepper, plan: Plan, s: Session, input: uint32, j: nat)
    returns (b: nat)
    requires KeepsInput(step) && Playable(plan) && s.phase.Idle? && !Frame(step, plan, s, input).OutOfBudget?
    requires j > 0 && PartialFrame(step, plan, s, input, j).Some?
    ensures OnTrack(step, plan, PartialFrame(step, plan, s, input, j).value, input, b, Frame(step, plan, s, input))
  {
    hide OnTrack, DebugStep, Frame;
    var target := Frame(step, plan, s, input);
    var before, limit := s, plan.callBudget;
    if j == 1 {
      FirstStepOnTrack(step, plan, s, input);
      before := s.(phase := Updating, m := BeginCall(s.m.(input := input), plan.update, plan.table));
    } else {
      limit := PartialFrameOnTrack(step, plan, s, input, j - 1);
      before := PartialFrame(step, plan, s, input, j - 1).value;
    }
    DebugStepOnTrack(step, plan, before, input, limit, target);
    b := if DebugStep(step, plan, before, input).s.phase == before.phase then limit - 1 else plan.callBudget;
  }

  /**
   * After any number of debugger steps that leave a frame unfinished, running the rest ends exactly where the
   * whole frame would have ended: the same session, or the same trap in the same machine with the same boundary
   * and late count. After a trap only the phase differs: the whole frame is idle again, the stepped one is not.
   */
  lemma StepwiseIsWholeFrame(step: Stepper, plan: Plan, s: Session, input: uint32, j: nat)
    requires KeepsInput(step) && Playable(plan) && s.phase.Idle? && !Frame(step, plan, s, input).OutOfBudget?
    requires PartialFrame(step, plan, s, input, j).Some?
    ensures var r := Frame(step, plan, PartialFrame(step, plan, s, input, j).value, input);
      && AtRest(r) == Frame(step, plan, s, input)
      && (r.s.phase.Idle? <==> r.Finished? || j == 0)
  {
    FrameAtRest(step, plan, s, input);
    if j > 0 {
      hide OnTrack, Resume, Run;
      var b := PartialFrameOnTrack(step, plan, s, input, j);
      var partial := PartialFrame(step, plan, s, input, j).value;
      Unfinished(step, plan, partial, input, b, Frame(step, plan, s, input));
      ResumeOnTrack(step, plan, partial, input, b, plan.resumeBudget, Frame(step, plan, s, input));
    }
  }

  lemma FrameAtRest(step: Stepper, plan: Plan, s: Session, input: uint32)
    requires s.phase.Idle?
    ensures Frame(step, plan, s, input).s.phase.Idle?
  {
  }

  lemma Unfinished(step: Stepper, plan: Plan, s: Session, input: uint32, b: nat, target: FrameResult)
    requires OnTrack(step, plan, s, input, b, target)
    ensures !s.phase.Idle? && b <= plan.callBudget
  {
  }
}
