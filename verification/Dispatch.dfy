/** From an accepted package to a host call: where things lie in guest memory and what the table words do. */
module Dispatch {
  import opened Words
  import opened Isa
  import opened Clock
  import opened Semantics
  import opened Stepping
  import opened Frames
  import opened Cartridges
  import opened Console
  import Bitwise
  import Quotients
  import VirtualTime

  /** The machine runs cartridge `c` and its ABI table has not been overwritten. */
  predicate TableIntact(m: Machine, c: Cartridge) {
    && m.base == BaseOf(c.header) && |m.mem| == Allocated(c.header)
    && m.mem[AbiOffset(c.header)..AbiOffset(c.header) + TABLE_BYTES] == Table()
  }

  /** No host address lies in guest memory. */
  predicate ClearOfHost(h: Header) {
    BaseOf(h) + Allocated(h) <= HOST_BASE || HOST_BASE + 4 * ABI_FUNCTIONS - 4 < BaseOf(h)
  }

  predicate HostRange(env: Env) {
    env.hostBase == HOST_BASE && env.hostCount == ABI_FUNCTIONS
  }

  function TableWordAddress(h: Header, k: nat): uint32 {
    U32(BaseOf(h) + AbiOffset(h) + TABLE_HEADER_BYTES + 4 * k)
  }

  lemma RegionsInOrder(h: Header, size: nat)
    requires Acceptable(h, size)
    ensures h.codeSize + h.memSize + STACK_BYTES <= AbiOffset(h)
    ensures AbiOffset(h) + TABLE_BYTES <= ScratchOffset(h) && ScratchOffset(h) + PAGE_BYTES == Allocated(h)
    ensures AbiOffset(h) % 16 == 0 && Allocated(h) % 16 == 0
  {
  }

  /** Payload, ABI table and scratch page lie apart, and a load leaves the payload, the table and zeros there. */
  lemma RegionsDisjoint(c: Cartridge, size: nat)
    requires Acceptable(c.header, size) && |c.payload| == c.header.codeSize
    ensures var h, b := c.header, Image(c);
      && h.codeSize <= AbiOffset(h) < AbiOffset(h) + TABLE_BYTES <= ScratchOffset(h) < Allocated(h) == |b|
      && b[..h.codeSize] == c.payload
      && b[AbiOffset(h)..AbiOffset(h) + TABLE_BYTES] == Table()
      && (forall i | h.codeSize <= i < AbiOffset(h) || AbiOffset(h) + TABLE_BYTES <= i < |b| :: b[i] == 0)
  {
    hide Table;
    RegionsInOrder(c.header, size);
  }

  /** A call starts with its stack pointer at the end of the allocation: the stack grows down into the scratch page. */
  lemma StackTopsScratch(m: Machine, h: Header, entry: uint32, a0: uint32)
    requires m.base == BaseOf(h) && |m.mem| == Allocated(h)
    ensures Frames.BeginCall(m, entry, a0).x[2] == U32(BaseOf(h) + ScratchOffset(h) + PAGE_BYTES)
  {
  }

  /** The memory of every loaded package meets the one condition of precise traps and exact store-conditionals. */
  lemma LoadedIsSized(m: Machine, h: Header)
    requires m.base == BaseOf(h)
    ensures Sized(m)
  {
  }

  /** Every entry point of an accepted package lies in its payload, below the return address of a call. */
  lemma EntriesPlayable(h: Header, size: nat)
    requires Acceptable(h, size)
    ensures forall o | o in [h.initOffset, h.updateOffset, h.drawOffset] ::
      && U32(BaseOf(h) + o) == BaseOf(h) + o < BaseOf(h) + h.codeSize
      && U32(BaseOf(h) + o) < RETURN_SENTINEL
    ensures Playable(PlanOf(h))
  {
  }

  /** For a loaded cartridge, single-stepping part of a frame and then finishing it is the same as the whole frame. */
  lemma SteppingIsPlaying(env: Env, h: Header, size: nat, s: Session, input: uint32, j: nat)
    requires Acceptable(h, size) && s.phase.Idle? && !Frames.Frame(Interpreter(env), PlanOf(h), s, input).OutOfBudget?
    requires PartialFrame(Interpreter(env), PlanOf(h), s, input, j).Some?
    ensures AtRest(Frames.Frame(Interpreter(env), PlanOf(h),
                                PartialFrame(Interpreter(env), PlanOf(h), s, input, j).value, input))
            == Frames.Frame(Interpreter(env), PlanOf(h), s, input)
  {
    EntriesPlayable(h, size);
    InterpreterKeepsInput(env);
    StepwiseIsWholeFrame(Interpreter(env), PlanOf(h), s, input, j);
  }

  lemma {:induction false} TableWordBytes(n: nat, k: nat)
    requires k < n <= ABI_FUNCTIONS
    ensures TableWords(n)[4 * k..4 * k + 4] == Bytes32(HOST_BASE + 4 * k)
  {
    hide Bytes32;
    if k == n - 1 {
    } else {
      TableWordBytes(n - 1, k);
      assert TableWords(n)[4 * k..4 * k + 4] == TableWords(n - 1)[4 * k..4 * k + 4];
    }
  }

  lemma TableBytes(k: nat)
    requires k < ABI_FUNCTIONS
    ensures var o := TABLE_HEADER_BYTES + 4 * k;
      Table()[o..o + 4] == Bytes32(HOST_BASE + 4 * k)
  {
    hide TableHeader, TableWords;
    TableWordBytes(ABI_FUNCTIONS, k);
    assert Table()[TABLE_HEADER_BYTES + 4 * k..TABLE_HEADER_BYTES + 4 * k + 4]
           == TableWords(ABI_FUNCTIONS)[4 * k..4 * k + 4];
  }

  lemma SliceOfSlice(s: seq<uint8>, a: nat, b: nat, i: nat, j: nat)
    requires a <= b <= |s| && i <= j <= b - a
    ensures s[a..b][i..j] == s[a + i..a + j]
  {
    assert |s[a..b][i..j]| == |s[a + i..a + j]|;
    assert forall k | 0 <= k < j - i :: s[a..b][i..j][k] == s[a + i..a + j][k];
  }

  lemma BytesMakeWord(v: uint32)
    ensures var b := Bytes32(v);
      b[0] as int + 0x100 * (b[1] as int) + 0x1_0000 * (b[2] as int + 0x100 * (b[3] as int)) == v
  {
  }

  lemma ByteOfMemory(m: Machine, o: nat)
    requires o < |m.mem| && m.base + o < TWO32
    ensures U32(m.base + o) == m.base + o && Mapped(m, m.base + o) && ByteAt(m, m.base + o) == m.mem[o]
  {
  }

  /** Four bytes in guest memory, read as a word. */
  lemma WordOfBytes(m: Machine, o: nat, v: uint32)
    requires o + 4 <= |m.mem| && m.base + o + 4 <= TWO32 && m.mem[o..o + 4] == Bytes32(v)
    ensures WordMapped(m, m.base + o) && WordAt(m, m.base + o) == v
  {
    hide ByteAt, Mapped, U32, Bytes32;
    assert m.mem[o..o + 4][0] == m.mem[o] && m.mem[o..o + 4][1] == m.mem[o + 1];
    assert m.mem[o..o + 4][2] == m.mem[o + 2] && m.mem[o..o + 4][3] == m.mem[o + 3];
    ByteOfMemory(m, o);
    ByteOfMemory(m, o + 1);
    ByteOfMemory(m, o + 2);
    ByteOfMemory(m, o + 3);
    BytesMakeWord(v);
  }

  /** Two bytes in guest memory, read as a halfword. */
  lemma HalfOfBytes(m: Machine, o: nat, v: uint16)
    requires o + 2 <= |m.mem| && m.base + o + 2 <= TWO32 && m.mem[o..o + 2] == Bytes16(v)
    ensures HalfMapped(m, m.base + o) && HalfAt(m, m.base + o) == v
  {
    hide ByteAt, Mapped, U32;
    assert m.mem[o..o + 2][0] == m.mem[o] && m.mem[o..o + 2][1] == m.mem[o + 1];
    ByteOfMemory(m, o);
    ByteOfMemory(m, o + 1);
  }

  /** The ABI table ends within the address space. */
  predicate TablePlaced(h: Header) {
    BaseOf(h) + AbiOffset(h) + TABLE_BYTES <= TWO32
  }

  predicate TableWorks(m: Machine, h: Header) {
    forall k: nat | k < ABI_FUNCTIONS ::
      WordMapped(m, TableWordAddress(h, k)) && WordAt(m, TableWordAddress(h, k)) == HOST_BASE + 4 * k
  }

  /**
   * The guest can read every word of its table, and each is the address of its host call, exactly when the table
   * ends within the address space. The loader accepts packages for which it does not.
   */
  lemma TableWorksExactly(m: Machine, c: Cartridge, size: nat)
    requires Acceptable(c.header, size) && TableIntact(m, c)
    ensures TableWorks(m, c.header) <==> TablePlaced(c.header)
  {
    var h, o := c.header, AbiOffset(c.header);
    hide WordAt, WordMapped, Table, Bytes32, TableWorks;
    if BaseOf(h) + o + TABLE_BYTES <= TWO32 {
      forall k: nat | k < ABI_FUNCTIONS
        ensures WordMapped(m, TableWordAddress(h, k)) && WordAt(m, TableWordAddress(h, k)) == HOST_BASE + 4 * k
      {
        var t := TABLE_HEADER_BYTES + 4 * k;
        TableBytes(k);
        SliceOfSlice(m.mem, o, o + TABLE_BYTES, t, t + 4);
        WordOfBytes(m, o + t, HOST_BASE + 4 * k);
      }
      AllWordsWork(m, h);
    } else {
      LastWordUnmapped(m, h);
      if TableWorks(m, h) { WorkingWord(m, h, ABI_FUNCTIONS - 1); }
    }
  }

  lemma AllWordsWork(m: Machine, h: Header)
    requires forall k: nat | k < ABI_FUNCTIONS ::
      WordMapped(m, TableWordAddress(h, k)) && WordAt(m, TableWordAddress(h, k)) == HOST_BASE + 4 * k
    ensures TableWorks(m, h)
  {
    hide WordMapped, WordAt, TableWordAddress;
  }

  lemma WorkingWord(m: Machine, h: Header, k: nat)
    requires TableWorks(m, h) && k < ABI_FUNCTIONS
    ensures WordMapped(m, TableWordAddress(h, k)) && WordAt(m, TableWordAddress(h, k)) == HOST_BASE + 4 * k
  {
    hide WordMapped, WordAt, TableWordAddress;
  }

  lemma LastWordUnmapped(m: Machine, h: Header)
    requires m.base == BaseOf(h) && |m.mem| == Allocated(h) <= MAXIMUM_GUEST_BYTES + 3 * PAGE_BYTES
    requires BaseOf(h) + AbiOffset(h) + TABLE_BYTES > TWO32
    ensures !WordMapped(m, TableWordAddress(h, ABI_FUNCTIONS - 1))
  {
  }

  /** Guest addresses are never taken for host calls exactly when guest memory is clear of the host addresses. */
  lemma HostRangeApart(env: Env, m: Machine, h: Header)
    requires HostRange(env) && m.base == BaseOf(h) && |m.mem| == Allocated(h)
    ensures (forall a: uint32 | Mapped(m, a) :: !IsHost(env, a)) <==> ClearOfHost(h)
  {
    if !ClearOfHost(h) {
      var first := Max(BaseOf(h), HOST_BASE);
      var a: uint32 := first + (-first) % 4;
      assert Mapped(m, a) && IsHost(env, a);
    }
  }

  /** An unaligned address in the host range is no host call, and is fetched from only if guest memory is there. */
  lemma UnalignedHostFaults(env: Env, m: Machine)
    requires HostRange(env) && HOST_BASE <= m.pc < HOST_BASE + 4 * ABI_FUNCTIONS && m.pc % 4 != 0
    ensures !HalfMapped(m, m.pc) ==> Step(env, m) == Trapped(FetchFault, m)
  {
  }

  function WitnessHeader(loadAddr: uint32): Header {
    Header(1, 100, 4, loadAddr, 16, 0, 0, 4, 8, 0)
  }

  function WitnessCartridge(loadAddr: uint32, payload: seq<uint8>): Cartridge {
    Cartridge(WitnessHeader(loadAddr), CURRENT_HASH, 0, IMPORT_MODEL_ABI_TABLE, payload, None)
  }

  lemma WitnessLoads(loadAddr: uint32, payload: seq<uint8>)
    requires |payload| == 16 && loadAddr + MINIMUM_GUEST_BYTES <= TWO32
    ensures Acceptable(WitnessHeader(loadAddr), 116) && Loadable(WitnessCartridge(loadAddr, payload))
  {
  }

  /** A package that the loader accepts and the runtime loads, and whose guest cannot read its ABI table. */
  lemma LoadedWithoutTable(payload: seq<uint8>)
    requires |payload| == 16
    ensures var h, c := WitnessHeader(0xfffc_0000), WitnessCartridge(0xfffc_0000, payload);
      && Acceptable(h, 116) && Loadable(c) && !TablePlaced(h)
      && forall m | TableIntact(m, c) :: !TableWorks(m, h)
  {
    hide Table, TableWorks, Loadable;
    WitnessLoads(0xfffc_0000, payload);
    var c := WitnessCartridge(0xfffc_0000, payload);
    forall m | TableIntact(m, c) ensures !TableWorks(m, c.header) { TableWorksExactly(m, c, 116); }
  }

  /** A package that the loader accepts and the runtime loads, and whose code is taken for host calls. */
  lemma CodeTakenForHostCalls(env: Env, payload: seq<uint8>)
    requires HostRange(env) && |payload| == 16
    ensures var h, c := WitnessHeader(HOST_BASE), WitnessCartridge(HOST_BASE, payload);
      && Acceptable(h, 116) && Loadable(c)
      && IsHost(env, U32(BaseOf(h) + h.initOffset)) && HostIndex(env, U32(BaseOf(h) + h.initOffset)) == 0
      && IsHost(env, PlanOf(h).update) && HostIndex(env, PlanOf(h).update) == 1
      && IsHost(env, PlanOf(h).draw) && HostIndex(env, PlanOf(h).draw) == 2
  {
    hide Loadable;
    WitnessLoads(HOST_BASE, payload);
  }

  /**
   * Jumping through table word k runs host call k, once, and resumes at the return address; the step retires
   * no instruction.
   */
  lemma TableWordDispatches(env: Env, m: Machine, c: Cartridge, size: nat, k: nat)
    requires HostRange(env) && Acceptable(c.header, size) && TableIntact(m, c) && TablePlaced(c.header)
    requires k < ABI_FUNCTIONS && m.pc == WordAt(m, TableWordAddress(c.header, k))
    ensures m.pc == HOST_BASE + 4 * k && Step(env, m).Done?
    ensures var after := Stepping.HostCall(env, m, k);
      Step(env, m).m == after.(pc := after.x[1]) && after.retired == m.retired
  {
    hide WordAt, ActAll, AbiOffset, Acceptable, TableIntact, Exec16, Semantics.Exec32;
    TableWordRead(m, c, size, k);
    ActKeepsSettings(m, env.call(k, m).actions);
  }

  lemma TableWordRead(m: Machine, c: Cartridge, size: nat, k: nat)
    requires Acceptable(c.header, size) && TableIntact(m, c) && TablePlaced(c.header) && k < ABI_FUNCTIONS
    ensures WordAt(m, TableWordAddress(c.header, k)) == HOST_BASE + 4 * k
  {
    hide WordAt, TableWordAddress;
    TableWorksExactly(m, c, size);
  }

  /**
   * What the runtime takes: packages flagged portable that import by ABI table, were built against a known ABI, and
   * ask for no feature but the seven provided ones.
   */
  lemma LoadableExactly(c: Cartridge)
    ensures Loadable(c) <==>
      && Bitwise.Bit(c.header.flags, 2) && c.importModel == 1
      && c.abiHash in {0x71b9_3e23, 0x0064_27c2, 0x6be6_e8d0, 0x260f_6136, 0xb384_5925}
      && forall k: nat | k < 32 && Bitwise.Bit(c.requiredFeatures, k) :: k in {0, 2, 3, 4, 6, 7, 8}
  {
    hide Bitwise.Bit, FeaturesProvided;
    FlagBit(c.header.flags);
    ProvidedBits();
    Bitwise.SubsetOfBits(c.requiredFeatures, PROVIDED_FEATURES);
    FeaturesAre(c);
  }

  lemma FlagBit(flags: uint16)
    ensures Bitwise.Bit(flags, 2) <==> (flags / 4) % 2 == 1
  {
    assert Pow2(2) == 4;
  }

  lemma FeaturesAre(c: Cartridge)
    ensures FeaturesProvided(c) <==> And32(c.requiredFeatures, TWO32 - 1 - PROVIDED_FEATURES) == 0
  {
  }

  lemma ProvidedBits()
    ensures forall k: nat | k < 32 :: Bitwise.Bit(PROVIDED_FEATURES, k) <==> k in {0, 2, 3, 4, 6, 7, 8}
  {
    SmallPowers();
    forall k: nat | k < 32 ensures Bitwise.Bit(PROVIDED_FEATURES, k) <==> k in {0, 2, 3, 4, 6, 7, 8} {
      if k >= 9 { LargePower(k); }
    }
  }

  lemma SmallPowers()
    ensures Pow2(0) == 1 && Pow2(1) == 2 && Pow2(2) == 4 && Pow2(3) == 8 && Pow2(4) == 16 && Pow2(5) == 32
    ensures Pow2(6) == 64 && Pow2(7) == 128 && Pow2(8) == 256
  {
  }

  lemma LargePower(k: nat)
    requires k >= 9
    ensures PROVIDED_FEATURES / Pow2(k) == 0
  {
    Bitwise.Pow2Adds(9, k - 9);
    assert Pow2(9) == 512;
    assert 512 * Pow2(k - 9) >= 512;
    Quotients.Quotient(PROVIDED_FEATURES, Pow2(k), 0, PROVIDED_FEATURES);
  }

  // What the guest finds when a call begins.

  /** A load leaves the table intact, and every entry point at the byte of the payload that the header names. */
  lemma LoadedMemory(m: Machine, c: Cartridge, mode: Mode, size: nat)
    requires Acceptable(c.header, size) && |c.payload| == c.header.codeSize
    ensures var h, g := c.header, FreshSession(m, c, mode).m;
      && TableIntact(g, c)
      && ByteAt(g, U32(BaseOf(h) + h.initOffset)) == c.payload[h.initOffset]
      && ByteAt(g, PlanOf(h).update) == c.payload[h.updateOffset]
      && ByteAt(g, PlanOf(h).draw) == c.payload[h.drawOffset]
  {
    hide Table, Image, AbiOffset, ByteAt, BaseOf, U32;
    RegionsDisjoint(c, size);
    LoadedByte(m, c, mode, size, c.header.initOffset);
    LoadedByte(m, c, mode, size, c.header.updateOffset);
    LoadedByte(m, c, mode, size, c.header.drawOffset);
  }

  lemma LoadedByte(m: Machine, c: Cartridge, mode: Mode, size: nat, o: uint32)
    requires Acceptable(c.header, size) && |c.payload| == c.header.codeSize
    ensures o < c.header.codeSize ==>
      ByteAt(FreshSession(m, c, mode).m, U32(BaseOf(c.header) + o)) == c.payload[o]
  {
    hide Table, Image, AbiOffset;
    RegionsDisjoint(c, size);
    if o < c.header.codeSize {
      assert Image(c)[..c.header.codeSize][o] == Image(c)[o];
      ByteOfMemory(FreshSession(m, c, mode).m, o);
    }
  }

  lemma TableFields()
    ensures Table()[0..4] == Bytes32(0x4942_4150) && Table()[4..6] == Bytes16(1) && Table()[6..8] == Bytes16(ABI_MINOR)
    ensures Table()[8..10] == Bytes16(TABLE_BYTES) && Table()[10..12] == Bytes16(ABI_FUNCTIONS)
    ensures Table()[12..16] == Bytes32(CURRENT_HASH) && Table()[16..20] == Bytes32(PROVIDED_FEATURES)
  {
    hide TableWords, Bytes32, Bytes16;
  }

  /**
   * At p the guest reads the table's magic, its version, size and length, the ABI's hash and features, and from 20
   * bytes on the address of every host call in order.
   */
  predicate FindsTable(g: Machine, p: uint32) {
    && WordAt(g, p) == 0x4942_4150 && HalfAt(g, U32(p + 4)) == 1 && HalfAt(g, U32(p + 6)) == ABI_MINOR
    && HalfAt(g, U32(p + 8)) == TABLE_BYTES && HalfAt(g, U32(p + 10)) == ABI_FUNCTIONS
    && WordAt(g, U32(p + 12)) == CURRENT_HASH && WordAt(g, U32(p + 16)) == PROVIDED_FEATURES
    && forall k: nat | k < ABI_FUNCTIONS :: WordAt(g, U32(p + 20 + 4 * k)) == HOST_BASE + 4 * k
  }

  /**
   * Whatever call begins while the table is intact and lies in the address space: a0 holds the address at which the
   * guest finds the table, and ra the return sentinel.
   */
  lemma GuestFindsTable(m: Machine, c: Cartridge, size: nat, entry: uint32)
    requires Acceptable(c.header, size) && TableIntact(m, c) && TablePlaced(c.header)
    ensures var g := Frames.BeginCall(m, entry, PlanOf(c.header).table);
      FindsTable(g, RegAt(g, 10)) && RegAt(g, 1) == RETURN_SENTINEL && g.pc == entry
  {
    hide TableIntact, TablePlaced, Acceptable, FindsTable, AbiOffset, BaseOf, WordAt, HalfAt;
    var g := Frames.BeginCall(m, entry, PlanOf(c.header).table);
    SameTable(m, g, c);
    TableRead(g, c);
  }

  lemma SameTable(m: Machine, g: Machine, c: Cartridge)
    requires TableIntact(m, c) && g.base == m.base && g.mem == m.mem
    ensures TableIntact(g, c)
  {
  }

  lemma TableRead(g: Machine, c: Cartridge)
    requires TableIntact(g, c) && TablePlaced(c.header)
    ensures FindsTable(g, U32(BaseOf(c.header) + AbiOffset(c.header)))
  {
    hide Table, Bytes32, Bytes16, WordAt, HalfAt, AbiOffset, BaseOf, TableIntact, TablePlaced, U32;
    TableFields();
    TableStarts(c.header);
    TableWord(g, c, 0, 0x4942_4150);
    TableHalf(g, c, 4, 1);
    TableHalf(g, c, 6, ABI_MINOR);
    TableHalf(g, c, 8, TABLE_BYTES);
    TableHalf(g, c, 10, ABI_FUNCTIONS);
    TableWord(g, c, 12, CURRENT_HASH);
    TableWord(g, c, 16, PROVIDED_FEATURES);
    var p := U32(BaseOf(c.header) + AbiOffset(c.header));
    forall k: nat | k < ABI_FUNCTIONS ensures WordAt(g, U32(p + 20 + 4 * k)) == HOST_BASE + 4 * k {
      TableBytes(k);
      TableWord(g, c, 20 + 4 * k, HOST_BASE + 4 * k);
      assert p + 20 + 4 * k == p + (20 + 4 * k);
    }
  }

  lemma TableStarts(h: Header)
    requires TablePlaced(h)
    ensures U32(BaseOf(h) + AbiOffset(h)) == BaseOf(h) + AbiOffset(h)
  {
  }

  /** After a load every call begins with the table's address in a0, its code at the entry the header names. */
  lemma LoadedGuestFindsTable(m: Machine, c: Cartridge, mode: Mode, size: nat, entry: uint32)
    requires Acceptable(c.header, size) && |c.payload| == c.header.codeSize && TablePlaced(c.header)
    ensures var g := Frames.BeginCall(FreshSession(m, c, mode).m, entry, PlanOf(c.header).table);
      FindsTable(g, RegAt(g, 10)) && RegAt(g, 1) == RETURN_SENTINEL && g.pc == entry
  {
    LoadedMemory(m, c, mode, size);
    GuestFindsTable(FreshSession(m, c, mode).m, c, size, entry);
  }

  lemma TableWord(g: Machine, c: Cartridge, t: nat, v: uint32)
    requires TableIntact(g, c) && TablePlaced(c.header) && t + 4 <= TABLE_BYTES && Table()[t..t + 4] == Bytes32(v)
    ensures WordAt(g, U32(BaseOf(c.header) + AbiOffset(c.header) + t)) == v
  {
    hide Table, Bytes32, WordAt, WordMapped;
    var o := AbiOffset(c.header);
    SliceOfSlice(g.mem, o, o + TABLE_BYTES, t, t + 4);
    WordOfBytes(g, o + t, v);
  }

  lemma TableHalf(g: Machine, c: Cartridge, t: nat, v: uint16)
    requires TableIntact(g, c) && TablePlaced(c.header) && t + 2 <= TABLE_BYTES && Table()[t..t + 2] == Bytes16(v)
    ensures HalfAt(g, U32(BaseOf(c.header) + AbiOffset(c.header) + t)) == v
  {
    hide Table, Bytes16, HalfAt, HalfMapped;
    var o := AbiOffset(c.header);
    SliceOfSlice(g.mem, o, o + TABLE_BYTES, t, t + 2);
    HalfOfBytes(g, o + t, v);
  }

  /** What executes a frame sees first: the call of the update entry with the table's address, whole or stepped. */
  lemma UpdateBegins(plan: Plan, s: Session, input: uint32)
    requires s.phase.Idle? && plan.callBudget > 0 && plan.update != RETURN_SENTINEL
    ensures var stops: Stepper := (g: Machine) => Trapped(Silent, g);
      var g := Frames.BeginCall(s.m.(input := input), plan.update, plan.table);
      && Frames.Frame(stops, plan, s, input) == Stopped(Silent, s.(m := g))
      && Frames.DebugStep(stops, plan, s, input) == Stopped(Silent, s.(m := g, phase := Updating))
  {
  }

  /** The step that returns from the update leaves the machine at the beginning of the draw call. */
  lemma DrawBegins(step: Stepper, plan: Plan, s: Session, input: uint32)
    requires s.phase.Updating? && Frames.DebugStep(step, plan, s, input).Finished?
    ensures var r := Frames.DebugStep(step, plan, s, input).s;
      r.phase.Drawing? ==> exists g: Machine ::
        && step(s.m.(input := input)) == Done(g) && g.pc == RETURN_SENTINEL
        && r.m == Frames.BeginCall(g, plan.draw, plan.table)
  {
  }

  // What follows for a package from its load on.

  /**
   * From the load of any package in accurate mode the frames keep time: after n of them the clock is at or past n
   * periods, the next boundary is n + 1 periods, and the late counter counts exactly the frames whose work passed theirs.
   */
  lemma LoadedFramesKeepTime(env: Env, c: Cartridge, m: Machine, ss: seq<Session>, inputs: seq<uint32>, n: nat)
    requires |ss| == |inputs| + 1 && n <= |inputs| && (n + 1) * FRAME_CYCLES < TWO64
    requires ss[0] == FreshSession(m, c, Accurate)
    requires forall k | 0 <= k < |inputs| ::
      VirtualTime.Follows(Frames.Frame(Interpreter(env), PlanOf(c.header), ss[k], inputs[k]), ss[k + 1])
    ensures ss[n].m.cycles >= n * FRAME_CYCLES && ss[n].boundary == (n + 1) * FRAME_CYCLES
    ensures ss[n].late == VirtualTime.LateCount(env, PlanOf(c.header), ss, inputs, n)
  {
    hide Frames.Frame, Image;
    VirtualTime.FramesKeepTime(env, PlanOf(c.header), ss, inputs, n);
  }

  /** In the other modes virtual cycles are retired instructions from the load on, whatever is run. */
  lemma LoadedCyclesAreRetired(env: Env, c: Cartridge, m: Machine, mode: Mode, ss: seq<Session>,
                               ops: seq<VirtualTime.Operation>, i: nat)
    requires |ss| == |ops| + 1 && i < |ss| && mode != Accurate && ss[0] == FreshSession(m, c, mode)
    requires forall k | 0 <= k < |ops| ::
      VirtualTime.SameGuest(VirtualTime.MachineAfter(env, PlanOf(c.header), ss[k], ops[k]), ss[k + 1].m)
    requires forall k | 0 <= k < |ss| :: ss[k].m.mode == mode
    ensures ss[i].m.cycles == ss[i].m.retired
  {
    hide VirtualTime.MachineAfter, Image;
    VirtualTime.CyclesAreRetired(env, PlanOf(c.header), ss, ops, i);
  }
}
