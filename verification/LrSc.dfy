/** Load-reserved and store-conditional over whole runs of guest code, host calls and resumptions. */
module LrSc {
  import opened Words
  import opened Isa
  import opened Semantics
  import opened Rvc
  import opened Stepping

  // Reservations in the abstract.

  /** What a move does to the reservation: LR.W takes it, stores and SC.W drop it, everything else keeps it. */
  datatype Effect = Links(a: uint32) | Breaks | Keeps

  predicate Follows(m: Machine, effect: Effect, m': Machine) {
    match effect
    case Links(a) => m'.reserved && m'.reservation == a && m'.mem == m.mem && m'.base == m.base
    case Breaks => !m'.reserved
    case Keeps => m'.reserved == m.reserved && m'.reservation == m.reservation && m'.mem == m.mem && m'.base == m.base
  }

  /** A history from a reset: no reservation is held in its first state. */
  predicate History(ms: seq<Machine>, effects: seq<Effect>) {
    && |ms| == |effects| + 1 && !ms[0].reserved
    && forall i | 0 <= i < |effects| :: Follows(ms[i], effects[i], ms[i + 1])
  }

  /** LR.W at address `a` was move j and is the most recent LR.W, with no store or SC.W since. */
  predicate LinkedBy(effects: seq<Effect>, i: nat, a: uint32, j: nat)
    requires i <= |effects|
  {
    j < i && effects[j] == Links(a) && forall k | j < k < i :: effects[k].Keeps?
  }

  ghost predicate Linked(effects: seq<Effect>, i: nat, a: uint32)
    requires i <= |effects|
  {
    exists j: nat :: LinkedBy(effects, i, a, j)
  }

  /**
   * The reservation flag is exactly the history: held for `a` if and only if an unbroken LR.W at `a` exists, and
   * memory is then what it was at that LR.W.
   */
  lemma {:induction false} ReservationIsHistory(ms: seq<Machine>, effects: seq<Effect>, i: nat, a: uint32)
    requires History(ms, effects) && i <= |effects|
    ensures ms[i].reserved && ms[i].reservation == a <==> Linked(effects, i, a)
    ensures forall j: nat | LinkedBy(effects, i, a, j) :: ms[i].mem == ms[j].mem && ms[i].base == ms[j].base
  {
    if i == 0 {
    } else {
      var p := i - 1;
      ReservationIsHistory(ms, effects, p, a);
      assert Follows(ms[p], effects[p], ms[p + 1]);
      forall j: nat | LinkedBy(effects, i, a, j)
        ensures ms[i].reserved && ms[i].reservation == a && ms[i].mem == ms[j].mem && ms[i].base == ms[j].base
      {
        if j < p { assert LinkedBy(effects, p, a, j); }
      }
      if ms[i].reserved && ms[i].reservation == a {
        if effects[p].Links? {
          assert LinkedBy(effects, i, a, p);
        } else {
          var j: nat :| LinkedBy(effects, p, a, j);
          assert LinkedBy(effects, i, a, j);
        }
      }
    }
  }

  // Reservations of the interpreter.

  /**
   * One move of a run: a completed step, or something between steps, as the runtime preparing the next call, the clock
   * advancing, or the host side changing its own state.
   */
  datatype Move = Stepped | Resumed

  predicate Moves(env: Env, m: Machine, move: Move, m': Machine) {
    match move
    case Stepped => Step(env, m) == Done(m')
    case Resumed =>
      m' == m.(x := m'.x, pc := m'.pc, cycles := m'.cycles, input := m'.input, mode := m'.mode, host := m'.host)
  }

  /** A run from a reset. */
  predicate Run(env: Env, ms: seq<Machine>, moves: seq<Move>) {
    && |ms| == |moves| + 1 && !ms[0].reserved
    && forall i | 0 <= i < |moves| :: Moves(env, ms[i], moves[i], ms[i + 1])
  }

  function Executed(env: Env, m: Machine, move: Move): Option<Instr> {
    if move.Resumed? || IsHost(env, m.pc) then None else Fetched(m)
  }

  /** Some store of the host call takes effect. */
  predicate HostStores(m: Machine, actions: seq<HostAction>)
    decreases |actions|
  {
    actions != []
    && (|| (actions[0].StoreMem? && Writable(m, actions[0].width, actions[0].address))
        || HostStores(Act(m, actions[0]), actions[1..]))
  }

  function EffectOf(env: Env, m: Machine, move: Move): Effect {
    var i := Executed(env, m, move);
    if i.Some? && i.value.Lr? then Links(RegAt(m, i.value.rs1))
    else if i.Some? && WritesMemory(i.value) then Breaks
    else if move.Stepped? && IsHost(env, m.pc) && HostStores(m, env.call(HostIndex(env, m.pc), m).actions) then Breaks
    else Keeps
  }

  function EffectsOf(env: Env, ms: seq<Machine>, moves: seq<Move>): (effects: seq<Effect>)
    requires |ms| == |moves| + 1
    ensures |effects| == |moves|
  {
    seq(|moves|, i requires 0 <= i < |moves| => EffectOf(env, ms[i], moves[i]))
  }

  lemma {:induction false} QuietHost(m: Machine, actions: seq<HostAction>)
    ensures var m' := ActAll(m, actions);
      if HostStores(m, actions) then !m'.reserved && m'.reservation == m.reservation && m'.base == m.base
      else m' == m.(x := m'.x)
    decreases |actions|
  {
    hide Writable, Stored;
    if actions == [] {
    } else {
      QuietHost(Act(m, actions[0]), actions[1..]);
      if actions[0].StoreMem? && Writable(m, actions[0].width, actions[0].address) {
        StoredConfined(m, actions[0].width, actions[0].address, actions[0].value);
        StaysClear(Act(m, actions[0]), actions[1..]);
      }
    }
  }

  lemma {:induction false} StaysClear(m: Machine, actions: seq<HostAction>)
    requires !m.reserved
    ensures !ActAll(m, actions).reserved
    decreases |actions|
  {
    if actions == [] {
    } else {
      StaysClear(Act(m, actions[0]), actions[1..]);
    }
  }

  /** What one completed instruction does to the reservation. */
  lemma ExecuteReservation(m: Machine, i: Instr, length: uint32)
    requires Execute(m, i, length).Done?
    ensures var m' := Execute(m, i, length).m;
      if i.Lr? then m'.reserved && m'.reservation == RegAt(m, i.rs1) && m'.mem == m.mem && m'.base == m.base
      else if WritesMemory(i) then !m'.reserved
      else m'.reserved == m.reserved && m'.reservation == m.reservation && m'.mem == m.mem && m'.base == m.base
  {
    hide Alu, MulDivide, Readable, Loaded, CounterValue, Taken, Writable, ExecuteAtomic;
    hide Value, U32, U64, RegAt, Even;
    if i.Lr? || i.Sc? || i.Amo? || i.BadAtomic? { AtomicReservation(m, i, U32(m.pc + length)); }
  }

  lemma AtomicReservation(m: Machine, i: Instr, next: uint32)
    requires (i.Lr? || i.Sc? || i.Amo? || i.BadAtomic?) && ExecuteAtomic(m, i, next).Done?
    ensures var m' := ExecuteAtomic(m, i, next).m;
      if i.Lr? then m'.reserved && m'.reservation == RegAt(m, i.rs1) && m'.mem == m.mem && m'.base == m.base
      else (i.Sc? || i.Amo?) && !m'.reserved
  {
    hide AmoResult, WordAt, WordMapped, Writable, RegAt, U32, U64;
  }

  /** Every move of the interpreter, guest or host, has the effect on the reservation that its kind says. */
  lemma MoveReservation(env: Env, m: Machine, move: Move, m': Machine)
    requires Moves(env, m, move, m')
    ensures Follows(m, EffectOf(env, m, move), m')
  {
    hide Listing, Decode, Execute, HostStores;
    if move.Stepped? && IsHost(env, m.pc) {
      QuietHost(m, env.call(HostIndex(env, m.pc), m).actions);
    } else if move.Stepped? {
      var i := Fetched(m).value;
      var length := if Compressed(HalfAt(m, m.pc)) then 2 else 4;
      if length == 2 { ListingCompressible(Parcel(HalfAt(m, m.pc))); }
      if Execute(m, i, length).Done? { ExecuteReservation(m, i, length); }
    }
  }

  lemma RunIsHistory(env: Env, ms: seq<Machine>, moves: seq<Move>)
    requires Run(env, ms, moves)
    ensures History(ms, EffectsOf(env, ms, moves))
  {
    hide Moves, EffectOf, Follows;
    var effects := EffectsOf(env, ms, moves);
    forall i | 0 <= i < |effects| ensures Follows(ms[i], effects[i], ms[i + 1]) {
      MoveReservation(env, ms[i], moves[i], ms[i + 1]);
    }
  }

  lemma ScEffect(m: Machine, sc: Instr, length: uint32)
    requires sc.Sc? && Sized(m) && Execute(m, sc, length).Done?
    ensures var m', a := Execute(m, sc, length).m, RegAt(m, sc.rs1);
      && !m'.reserved && Writable(m, Word, a)
      && (if m.reserved && m.reservation == a then
            RegAt(m', sc.rd) == 0 && m'.mem == Stored(m, Word, a, RegAt(m, sc.rs2)).mem
          else RegAt(m', sc.rd) == (if sc.rd == 0 then 0 else 1) && m'.mem == m.mem)
  {
    hide Stored, WordAt, WordMapped;
    if WordMapped(m, RegAt(m, sc.rs1)) {
      ReadableIsWritable(m, RegAt(m, sc.rs1));
      StoredConfined(m, Word, RegAt(m, sc.rs1), RegAt(m, sc.rs2));
    }
  }

  /** An SC.W that completes was fetched as a 32-bit word. */
  lemma ScIsWide(env: Env, m: Machine, m': Machine)
    requires Step(env, m) == Done(m') && !IsHost(env, m.pc) && Fetched(m).Some? && Fetched(m).value.Sc?
    ensures Execute(m, Fetched(m).value, 4) == Done(m')
  {
    hide Listing, Decode, Execute;
    if HalfMapped(m, m.pc) { ListingCompressible(Parcel(HalfAt(m, m.pc))); }
  }

  /**
   * SC.W in any run: it stores and returns 0 exactly when an LR.W at its address is still linked, and then the
   * word is still what that LR.W read; otherwise it returns 1 and leaves memory alone. Either way no
   * reservation survives it. Every loaded package is `Sized`, as its base is never 0.
   */
  lemma StoreConditional(env: Env, ms: seq<Machine>, moves: seq<Move>, i: nat)
    requires Run(env, ms, moves) && i < |moves| && Sized(ms[i])
    requires Executed(env, ms[i], moves[i]).Some? && Executed(env, ms[i], moves[i]).value.Sc?
    ensures var sc, effects := Executed(env, ms[i], moves[i]).value, EffectsOf(env, ms, moves);
      var a := RegAt(ms[i], sc.rs1);
      && !ms[i + 1].reserved
      && Writable(ms[i], Word, a)
      && (if Linked(effects, i, a) then
            && RegAt(ms[i + 1], sc.rd) == 0
            && ms[i + 1].mem == Stored(ms[i], Word, a, RegAt(ms[i], sc.rs2)).mem
            && (forall j: nat | LinkedBy(effects, i, a, j) :: WordAt(ms[i], a) == WordAt(ms[j], a))
          else
            && RegAt(ms[i + 1], sc.rd) == (if sc.rd == 0 then 0 else 1)
            && ms[i + 1].mem == ms[i].mem)
  {
    hide Linked, Fetched, Step, Stored, Execute, EffectsOf, WordAt;
    var m, sc, effects := ms[i], Fetched(ms[i]).value, EffectsOf(env, ms, moves);
    assert Moves(env, m, moves[i], ms[i + 1]);
    ScIsWide(env, m, ms[i + 1]);
    ScEffect(m, sc, 4);
    RunIsHistory(env, ms, moves);
    ReservationIsHistory(ms, effects, i, RegAt(m, sc.rs1));
    forall j: nat | LinkedBy(effects, i, RegAt(m, sc.rs1), j)
      ensures WordAt(m, RegAt(m, sc.rs1)) == WordAt(ms[j], RegAt(m, sc.rs1))
    {
      SameMemorySameWord(m, ms[j], RegAt(m, sc.rs1));
    }
  }

  lemma SameMemorySameWord(m: Machine, n: Machine, a: uint32)
    requires m.mem == n.mem && m.base == n.base
    ensures WordAt(m, a) == WordAt(n, a)
  {
  }
}
