/** Cartridge-visible timing: cycle charges per instruction class and per ABI call, and the virtual clock. */
module Clock {
  import opened Words

  datatype Mode = Accurate | Optimal | Unlimited
  datatype Timing =
    | AluTime | ShiftTime | NotTakenTime | TakenTime | JumpTime | LoadTime | StoreTime
    | MultiplyTime | DivideTime | AtomicTime | CsrTime | FenceTime

  const FREQUENCY_HZ: int := 160_000_000
  const FRAME_NANOSECONDS: int := 33_000_000
  const FRAME_CYCLES: int := FREQUENCY_HZ * FRAME_NANOSECONDS / 1_000_000_000
  const NANOSECONDS: int := 1_000_000_000

  function InstructionCycles(t: Timing): nat {
    match t
    case AluTime => 1 case ShiftTime => 2 case NotTakenTime => 1 case TakenTime => 3
    case JumpTime => 3 case LoadTime => 3 case StoreTime => 2 case MultiplyTime => 4
    case DivideTime => 16 case AtomicTime => 8 case CsrTime => 2 case FenceTime => 1
  }

  /** The local-processing charge of ABI call `call` with arguments a0 to a7. */
  function AbiCycles(call: nat, a: seq<uint32>): nat
    requires |a| == 8
  {
    if call in {51, 80, 137} then 120 + 320 * 200 * 5
    else if call in {55, 135} then 120 + 5
    else if call in {56, 136} then 120 + Min(a[2], 320) * Min(a[3], 200) * 5
    else if call == 57 then 120 + 8 * 8 * 5
    else if call in {83, 93, 94, 95} then 120 + 40 * 25 * 64 * 5
    else if call == 105 then 120 + 64 * 5
    else if call == 106 then 120 + 16 * 16 * 7
    else if call == 108 then 120 + Min(a[2], 320) * Min(a[3], 200) * 7
    else if call == 113 then 120 + 24 * 24 * 7
    else if call == 8 then 120 + Min(a[1], 1_000_000) * 3
    else if call == 7 then 120 + Min(a[1], 65_536) * 12
    else 120
  }

  /**
   * The charges of drawing go by area: a pixel of a clipped rectangle costs what a single pixel does, and the clears,
   * tiles and whole tile screens cost what rectangles of their size do; the blits go by area too, at another rate.
   */
  lemma ChargesByArea(a: seq<uint32>)
    requires |a| == 8
    ensures var base, w, h := AbiCycles(0, a), Min(a[2], 320), Min(a[3], 200);
      var pixel, blit := AbiCycles(55, a) - base, AbiCycles(108, a[2 := 1][3 := 1]) - base;
      && base == 120 && pixel == 5 && blit == 7
      && (forall k | k in {56, 136} :: AbiCycles(k, a) == base + w * h * pixel)
      && (forall k | k in {51, 80, 137} :: AbiCycles(k, a) == AbiCycles(56, a[2 := 320][3 := 200]))
      && (forall k | k in {57, 105} :: AbiCycles(k, a) == AbiCycles(56, a[2 := 8][3 := 8]))
      && (forall k | k in {83, 93, 94, 95} :: AbiCycles(k, a) - base == 40 * 25 * (AbiCycles(57, a) - base))
      && AbiCycles(108, a) == base + w * h * blit
      && AbiCycles(106, a) == AbiCycles(108, a[2 := 16][3 := 16])
      && AbiCycles(113, a) == AbiCycles(108, a[2 := 24][3 := 24])
  {
  }

  /** No call costs less than the base charge or as much as a frame; only drawing and audio cost more than the base. */
  lemma ChargesBounded(call: nat, a: seq<uint32>)
    requires |a| == 8
    ensures 120 <= AbiCycles(call, a) <= 120 + 3_000_000 < FRAME_CYCLES
    ensures AbiCycles(call, a) != 120 ==>
      call in {7, 8, 51, 55, 56, 57, 80, 83, 93, 94, 95, 105, 106, 108, 113, 135, 136, 137}
    ensures AbiCycles(8, a) == 120 + 3 * Min(a[1], 1_000_000) && AbiCycles(7, a) == 120 + 12 * Min(a[1], 65_536)
  {
    assert Min(a[2], 320) * Min(a[3], 200) <= 320 * 200;
  }

  /** VirtualClock::nanoseconds, split so that no intermediate value leaves 64 bits. */
  function Nanoseconds(cycles: uint64): uint64 {
    var seconds := cycles / FREQUENCY_HZ;
    var remainder := cycles % FREQUENCY_HZ;
    if seconds > (TWO64 - 1) / NANOSECONDS then TWO64 - 1
    else
      var part: uint64 := remainder * NANOSECONDS;
      var fraction := part / FREQUENCY_HZ;
      var whole: uint64 := seconds * NANOSECONDS;
      if whole > TWO64 - 1 - fraction then TWO64 - 1 else whole + fraction
  }

  /** One cycle is 25/4 ns: the split computation is the exact quotient, saturated at 64 bits. */
  lemma NanosecondsExact(cycles: uint64)
    ensures Nanoseconds(cycles) == Min(cycles * 25 / 4, TWO64 - 1)
  {
    var seconds, remainder := cycles / FREQUENCY_HZ, cycles % FREQUENCY_HZ;
    assert cycles == seconds * FREQUENCY_HZ + remainder;
    assert remainder * NANOSECONDS / FREQUENCY_HZ == remainder * 25 / 4;
    assert cycles * 25 / 4 == seconds * NANOSECONDS + remainder * 25 / 4;
  }

  lemma NanosecondsMonotone(a: uint64, b: uint64)
    requires a <= b
    ensures Nanoseconds(a) <= Nanoseconds(b)
  {
    NanosecondsExact(a);
    NanosecondsExact(b);
  }
}
