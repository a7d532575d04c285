/** The performance-suite broker, ABI calls 125 to 132. */
module Performance {
  import opened Words
  import opened Statistics
  import opened Quotients

  const MAXIMUM_CASES: nat := 12
  const MAXIMUM_SAMPLES: nat := 100_000
  const FRAME_BUDGET_US: nat := 33_333
  /** An allocator asked to reserve at most 100000 entries does not set aside this many. */
  const RESERVE_LIMIT: nat := 0x1000_0000

  const IDLE: int := 0
  const RUNNING: int := 1
  const COMPLETE: int := 2
  const ABORTED: int := 3

  datatype Sample = Sample(update: uint32, draw: uint32, present: uint32, total: uint32)

  datatype PerfCase = PerfCase(
    index: uint32, mode: uint32, capacity: nat, samples: seq<uint32>,
    first: nat, frames: nat, min: uint32, mean: uint32, p50: uint32, p95: uint32, p99: uint32, max: uint32,
    missed: nat, update: uint32, draw: uint32, present: uint32,
    updateTotal: nat, drawTotal: nat, presentTotal: nat, frameTotal: nat)

  function NewCase(index: uint32, mode: uint32, capacity: nat): PerfCase {
    PerfCase(index, mode, capacity, [], 0, 0, 0, 0, 0, 0, 0, 0, 0, 0, 0, 0, 0, 0, 0, 0)
  }

  // Columns of a list of samples.
  function Totals(l: seq<Sample>): seq<uint32> { seq(|l|, i requires 0 <= i < |l| => l[i].total) }
  function Updates(l: seq<Sample>): seq<uint32> { seq(|l|, i requires 0 <= i < |l| => l[i].update) }
  function Draws(l: seq<Sample>): seq<uint32> { seq(|l|, i requires 0 <= i < |l| => l[i].draw) }
  function Presents(l: seq<Sample>): seq<uint32> { seq(|l|, i requires 0 <= i < |l| => l[i].present) }

  function Missed(l: seq<Sample>): nat {
    if l == [] then 0 else Missed(l[..|l| - 1]) + if l[|l| - 1].total > FRAME_BUDGET_US then 1 else 0
  }

  /** The accumulators of a case hold the sums over its samples. */
  predicate Accumulates(c: PerfCase, l: seq<Sample>) {
    && c.updateTotal == Sum(Updates(l)) && c.drawTotal == Sum(Draws(l)) && c.presentTotal == Sum(Presents(l))
    && c.frameTotal == Sum(Totals(l)) && c.missed == Missed(l) && |l| < RESERVE_LIMIT
  }

  /** A case still being measured. */
  predicate Collects(c: PerfCase, l: seq<Sample>) {
    && Accumulates(c, l) && c.samples == Totals(l) && |l| <= c.capacity < RESERVE_LIMIT
    && c.first == c.frames == c.min == c.mean == c.p50 == c.p95 == c.p99 == c.max == 0
    && c.update == c.draw == c.present == 0
  }

  /** A finished case states the statistics of its samples and where they lie in the whole suite. */
  predicate Summarises(c: PerfCase, l: seq<Sample>, first: nat) {
    && Accumulates(c, l) && l != [] && c.frames == |l| && c.first == first
    && c.min == Sorted(Totals(l))[0] && c.max == Sorted(Totals(l))[|l| - 1]
    && c.mean == Sum(Totals(l)) / |l| && c.update == Sum(Updates(l)) / |l|
    && c.draw == Sum(Draws(l)) / |l| && c.present == Sum(Presents(l)) / |l|
    && c.p50 == Percentile(Totals(l), 50) && c.p95 == Percentile(Totals(l), 95) && c.p99 == Percentile(Totals(l), 99)
  }

  function FramesBefore(log: seq<seq<Sample>>, n: nat): nat
    requires n <= |log|
  {
    if n == 0 then 0 else FramesBefore(log, n - 1) + |log[n - 1]|
  }

  /** Every finished case has ordered statistics, exact nearest ranks, and starts where the previous one ended. */
  lemma FinishedCase(c: PerfCase, log: seq<seq<Sample>>, i: nat)
    requires i < |log| && Summarises(c, log[i], FramesBefore(log, i))
    ensures c.frames >= 1 && c.min <= c.p50 <= c.p95 <= c.p99 <= c.max && c.min <= c.mean <= c.max
    ensures c.first + c.frames == FramesBefore(log, i + 1)
    ensures forall n: nat, p | (n, p) in {(50, c.p50), (95, c.p95), (99, c.p99)} ::
      100 * CountBelow(Totals(log[i]), p + 1) >= n * c.frames && 100 * CountBelow(Totals(log[i]), p) < n * c.frames
  {
    hide CountBelow, Sorted, Sum, RankIndex;
    var s := Totals(log[i]);
    StatisticsOrdered(s);
    PercentileIsNearestRank(s, 50);
    PercentileIsNearestRank(s, 95);
    PercentileIsNearestRank(s, 99);
  }

  /** The suite totals that ABI call 132 writes. */
  datatype Summary = Summary(frames: nat, fps100: int, min: uint32, mean: uint32, max: uint32, missed: nat,
                             update: uint32, draw: uint32, present: uint32, screens: nat)

  function SumOver(log: seq<seq<Sample>>, column: seq<Sample> -> seq<uint32>, n: nat): nat
    requires n <= |log|
  {
    if n == 0 then 0 else SumOver(log, column, n - 1) + Sum(column(log[n - 1]))
  }

  function MissedOver(log: seq<seq<Sample>>, n: nat): nat
    requires n <= |log|
  {
    if n == 0 then 0 else MissedOver(log, n - 1) + Missed(log[n - 1])
  }

  /** Sample j of case k is among the first n cases. */
  predicate Present(log: seq<seq<Sample>>, n: nat, k: nat, j: nat) {
    k < n && k < |log| && j < |log[k]|
  }

  ghost predicate IsLeast(log: seq<seq<Sample>>, n: nat, v: int) {
    && (forall k: nat, j: nat | Present(log, n, k, j) :: v <= log[k][j].total)
    && (exists k: nat, j: nat :: Present(log, n, k, j) && v == log[k][j].total)
  }

  ghost predicate IsGreatest(log: seq<seq<Sample>>, n: nat, v: int) {
    && (forall k: nat, j: nat | Present(log, n, k, j) :: log[k][j].total <= v)
    && (exists k: nat, j: nat :: Present(log, n, k, j) && v == log[k][j].total)
  }

  /** Hundredths of a frame per second, from a total in microseconds. */
  function FramesPerSecond(frames: nat, total: nat): uint32 {
    if total == 0 then 0 else U32(100_000_000 * frames / total)
  }

  /**
   * The rate is the largest number of hundredths that the frames reach in their total time, as long as it fits 32 bits;
   * and frames that all take t microseconds have the rate 1000000 / t, in hundredths, however many there are.
   */
  lemma RateExactly(frames: nat, total: nat, t: nat)
    requires total > 0 && t > 0 && 100_000_000 * frames < TWO32 * total
    ensures var rate := FramesPerSecond(frames, total);
      rate * total <= 100_000_000 * frames < (rate + 1) * total
    ensures FramesPerSecond(frames, frames * t) == if frames == 0 then 0 else 100_000_000 / t
  {
    RateBounds(frames, total);
    if frames > 0 { SteadyRate(frames, t); }
  }

  lemma RateBounds(frames: nat, total: nat)
    requires total > 0 && 100_000_000 * frames < TWO32 * total
    ensures var rate := FramesPerSecond(frames, total); rate * total <= 100_000_000 * frames < (rate + 1) * total
  {
    hide FramesPerSecond;
    var a := 100_000_000 * frames;
    QuotientBounds(a, total, TWO32);
    RateIs(frames, total, a / total);
  }

  lemma RateIs(frames: nat, total: nat, q: nat)
    requires total > 0 && q == 100_000_000 * frames / total && q < TWO32
    ensures FramesPerSecond(frames, total) == q
  {
  }

  lemma SteadyRate(frames: nat, t: nat)
    requires frames > 0 && t > 0
    ensures FramesPerSecond(frames, frames * t) == 100_000_000 / t
  {
    CommonFactor(100_000_000, t, frames);
    AtMostDividend(100_000_000, t);
  }

  /**
   * The summary of a completed suite over all its samples. The least sample is reported as 0 exactly when there is
   * none, or when it is itself 0 or the largest 32-bit value.
   */
  ghost predicate SuiteSummary(s: Summary, log: seq<seq<Sample>>) {
    var n, frames, total := |log|, FramesBefore(log, |log|), SumOver(log, Totals, |log|);
    && s.frames == frames && s.missed == MissedOver(log, n)
    && (if frames == 0 then s.min == 0 == s.max && s.mean == s.update == s.draw == s.present == 0
        else
          && s.mean == total / frames && s.update == SumOver(log, Updates, n) / frames
          && s.draw == SumOver(log, Draws, n) / frames && s.present == SumOver(log, Presents, n) / frames
          && IsGreatest(log, n, s.max)
          && (if IsLeast(log, n, TWO32 - 1) then s.min == 0 else IsLeast(log, n, s.min)))
    && s.fps100 == FramesPerSecond(frames, total)
  }

  /** One more than the greatest screen index, in 32 bits, and 0 without cases. */
  predicate IsScreenCount(screens: nat, cases: seq<PerfCase>) {
    && (forall i | 0 <= i < |cases| :: U32(cases[i].index + 1) <= screens)
    && (screens == 0 || exists i :: 0 <= i < |cases| && screens == U32(cases[i].index + 1))
  }

  /** A suite whose one frame took 2^32 - 1 microseconds reports a least frame of 0. */
  lemma LeastFrameLost(s: Summary, sample: Sample)
    requires sample.total == TWO32 - 1 && SuiteSummary(s, [[sample]])
    ensures IsLeast([[sample]], 1, TWO32 - 1) && s.min == 0 && s.max == TWO32 - 1 && s.frames == 1
  {
    var log := [[sample]];
    assert FramesBefore(log, 1) == FramesBefore(log, 0) + 1;
    assert Present(log, 1, 0, 0);
  }

  /** The mean over the whole suite lies between its least and its greatest sample. */
  lemma SummaryMeanInRange(s: Summary, log: seq<seq<Sample>>, least: int)
    requires SuiteSummary(s, log) && s.frames > 0 && IsLeast(log, |log|, least)
    ensures least <= s.mean <= s.max
  {
    hide Sum;
    SumOverBounds(log, |log|, least, s.max);
    DivideBounds(SumOver(log, Totals, |log|), s.frames, least, s.max);
  }

  lemma {:induction false} SumOverBounds(log: seq<seq<Sample>>, n: nat, low: uint32, high: uint32)
    requires n <= |log|
    requires forall k: nat, j: nat | Present(log, n, k, j) :: low <= log[k][j].total <= high
    ensures low * FramesBefore(log, n) <= SumOver(log, Totals, n) <= high * FramesBefore(log, n)
  {
    hide Sum;
    if n == 0 {
    } else {
      var l, before := log[n - 1], FramesBefore(log, n - 1);
      SumOverBounds(log, n - 1, low, high);
      forall j: nat | j < |l| ensures low <= Totals(l)[j] <= high { assert Present(log, n, n - 1, j); }
      SumBounds(Totals(l), low, high);
      Distribute(low, before, |l|);
      Distribute(high, before, |l|);
    }
  }

  lemma Distribute(a: nat, b: nat, c: nat)
    ensures a * (b + c) == a * b + a * c
  {
  }

  // Bookkeeping.

  lemma EmptyColumns(index: uint32, mode: uint32, capacity: nat)
    requires capacity < RESERVE_LIMIT
    ensures Collects(NewCase(index, mode, capacity), [])
  {
    hide Percentile, Sorted;
    assert Totals([]) == [] && Updates([]) == [] && Draws([]) == [] && Presents([]) == [];
    assert Missed([]) == 0;
  }

  lemma {:induction false} FramesSame(a: seq<seq<Sample>>, b: seq<seq<Sample>>, n: nat)
    requires n <= |a| && n <= |b| && a[..n] == b[..n]
    ensures FramesBefore(a, n) == FramesBefore(b, n)
  {
    if n == 0 {
    } else {
      assert a[..n - 1] == a[..n][..n - 1] && b[..n - 1] == b[..n][..n - 1];
      assert a[n - 1] == a[..n][n - 1] && b[n - 1] == b[..n][n - 1];
      FramesSame(a, b, n - 1);
    }
  }

  lemma ColumnsSnoc(l: seq<Sample>, s: Sample)
    ensures Totals(l + [s]) == Totals(l) + [s.total] && Sum(Totals(l + [s])) == Sum(Totals(l)) + s.total
    ensures Sum(Updates(l + [s])) == Sum(Updates(l)) + s.update && Sum(Draws(l + [s])) == Sum(Draws(l)) + s.draw
    ensures Sum(Presents(l + [s])) == Sum(Presents(l)) + s.present
    ensures Missed(l + [s]) == Missed(l) + if s.total > FRAME_BUDGET_US then 1 else 0
  {
    hide Sum;
    assert Totals(l + [s]) == Totals(l) + [s.total] && Updates(l + [s]) == Updates(l) + [s.update];
    assert Draws(l + [s]) == Draws(l) + [s.draw] && Presents(l + [s]) == Presents(l) + [s.present];
    SumSnoc(Totals(l), s.total);
    SumSnoc(Updates(l), s.update);
    SumSnoc(Draws(l), s.draw);
    SumSnoc(Presents(l), s.present);
    assert (l + [s])[..|l|] == l;
  }

  /** uint32_t(total / n). */
  function Average(total: nat, n: nat): uint32
    requires n > 0
  {
    U32(total / n)
  }

  /** An average of words is a word, so the conversion loses nothing. */
  lemma AverageExact(s: seq<uint32>)
    requires s != []
    ensures Average(Sum(s), |s|) == Sum(s) / |s|
  {
    SumBounds(s, 0, TWO32 - 1);
    DivideBounds(Sum(s), |s|, 0, TWO32 - 1);
  }

  lemma {:induction false} SumOverFits(log: seq<seq<Sample>>, n: nat, column: seq<Sample> -> seq<uint32>)
    requires n <= |log| && forall l :: |column(l)| == |l|
    ensures 0 <= SumOver(log, column, n) <= (TWO32 - 1) * FramesBefore(log, n)
    ensures FramesBefore(log, n) > 0 ==>
      Average(SumOver(log, column, n), FramesBefore(log, n)) == SumOver(log, column, n) / FramesBefore(log, n)
  {
    hide Sum;
    if n == 0 {
    } else {
      var before, l := FramesBefore(log, n - 1), |log[n - 1]|;
      SumOverFits(log, n - 1, column);
      SumBounds(column(log[n - 1]), 0, TWO32 - 1);
      Distribute(TWO32 - 1, before, l);
      if before + l > 0 { DivideBounds(SumOver(log, column, n), before + l, 0, TWO32 - 1); }
    }
  }

  /** Sample positions of the first n cases. */
  lemma LeastOfCase(c: PerfCase, log: seq<seq<Sample>>, i: nat)
    requires i < |log| && Summarises(c, log[i], FramesBefore(log, i))
    ensures forall j | 0 <= j < |log[i]| :: c.min <= log[i][j].total <= c.max
    ensures exists j: nat :: Present(log, i + 1, i, j) && log[i][j].total == c.min
    ensures exists j: nat :: Present(log, i + 1, i, j) && log[i][j].total == c.max
  {
    hide Sum, Missed, Percentile, Sorted;
    var s := Totals(log[i]);
    SortedBounds(s);
    forall j | 0 <= j < |log[i]| ensures c.min <= log[i][j].total <= c.max { assert s[j] == log[i][j].total; }
    SortedPermutes(s);
    assert Sorted(s)[0] in multiset(Sorted(s)) && Sorted(s)[|s| - 1] in multiset(Sorted(s));
    var j: nat :| j < |s| && s[j] == c.min;
    var k: nat :| k < |s| && s[k] == c.max;
    assert Present(log, i + 1, i, j) && Present(log, i + 1, i, k);
  }

  lemma LeastExtends(log: seq<seq<Sample>>, i: nat, min: int, own: int)
    requires i < |log| && (i == 0 ==> min == TWO32 - 1) && (i > 0 ==> IsLeast(log, i, min))
    requires forall j | 0 <= j < |log[i]| :: own <= log[i][j].total
    requires exists j: nat :: Present(log, i + 1, i, j) && log[i][j].total == own
    ensures IsLeast(log, i + 1, Words.Min(min, own))
  {
    if i > 0 {
      var k: nat, j: nat :| Present(log, i, k, j) && min == log[k][j].total;
      assert Present(log, i + 1, k, j);
    }
    forall k: nat, j: nat | Present(log, i + 1, k, j) ensures Words.Min(min, own) <= log[k][j].total {
      if k < i { assert Present(log, i, k, j); }
    }
  }

  lemma GreatestExtends(log: seq<seq<Sample>>, i: nat, max: int, own: int)
    requires i < |log| && (i == 0 ==> max == 0) && (i > 0 ==> IsGreatest(log, i, max))
    requires forall j | 0 <= j < |log[i]| :: log[i][j].total <= own
    requires exists j: nat :: Present(log, i + 1, i, j) && log[i][j].total == own
    ensures IsGreatest(log, i + 1, Words.Max(max, own))
  {
    if i > 0 {
      var k: nat, j: nat :| Present(log, i, k, j) && max == log[k][j].total;
      assert Present(log, i + 1, k, j);
    }
    forall k: nat, j: nat | Present(log, i + 1, k, j) ensures log[k][j].total <= Words.Max(max, own) {
      if k < i { assert Present(log, i, k, j); }
    }
  }

  /** One more finished case in every running total of the summary. */
  lemma CaseContributes(c: PerfCase, log: seq<seq<Sample>>, i: nat)
    requires i < |log| && Summarises(c, log[i], FramesBefore(log, i))
    ensures c.frames >= 1 && FramesBefore(log, i + 1) == FramesBefore(log, i) + c.frames
    ensures MissedOver(log, i + 1) == MissedOver(log, i) + c.missed
    ensures SumOver(log, Totals, i + 1) == SumOver(log, Totals, i) + c.frameTotal
    ensures SumOver(log, Updates, i + 1) == SumOver(log, Updates, i) + c.updateTotal
    ensures SumOver(log, Draws, i + 1) == SumOver(log, Draws, i) + c.drawTotal
    ensures SumOver(log, Presents, i + 1) == SumOver(log, Presents, i) + c.presentTotal
  {
    hide Sum, Missed, Sorted, Percentile;
  }

  lemma NoScreens(cases: seq<PerfCase>)
    requires cases == []
    ensures IsScreenCount(0, cases)
  {
  }

  lemma ScreenCountExtends(screens: nat, cases: seq<PerfCase>, c: PerfCase)
    requires IsScreenCount(screens, cases)
    ensures IsScreenCount(Words.Max(screens, U32(c.index + 1)), cases + [c])
  {
    var more := cases + [c];
    assert more[|cases|] == c;
    if screens > 0 {
      var i :| 0 <= i < |cases| && screens == U32(cases[i].index + 1);
      assert more[i] == cases[i];
    }
  }

  lemma NothingYet(log: seq<seq<Sample>>)
    ensures FramesBefore(log, 0) == MissedOver(log, 0) == SumOver(log, Totals, 0) == SumOver(log, Updates, 0) == 0
    ensures SumOver(log, Draws, 0) == SumOver(log, Presents, 0) == 0
  {
  }

  /** What ABI call 128 makes of a collecting case whose frames start at `first`. */
  function Closed(c: PerfCase, first: nat): PerfCase
    requires c.samples != []
  {
    var sorted, frames := Sorted(c.samples), |c.samples|;
    c.(samples := [], frames := frames, first := first, min := sorted[0], max := sorted[frames - 1],
       mean := Average(c.frameTotal, frames),
       p50 := sorted[RankIndex(frames, 50)], p95 := sorted[RankIndex(frames, 95)], p99 := sorted[RankIndex(frames, 99)],
       update := Average(c.updateTotal, frames), draw := Average(c.drawTotal, frames),
       present := Average(c.presentTotal, frames))
  }

  lemma ClosedSummarises(c: PerfCase, l: seq<Sample>, first: nat)
    requires Collects(c, l) && l != []
    ensures c.samples != [] && Summarises(Closed(c, first), l, first)
  {
    hide Sum, Missed, Sorted, RankIndex, Average;
    AverageExact(Totals(l));
    AverageExact(Updates(l));
    AverageExact(Draws(l));
    AverageExact(Presents(l));
  }

  lemma FramesOf(c: PerfCase, l: seq<Sample>, first: nat)
    requires Summarises(c, l, first)
    ensures c.frames == |l|
  {
  }

  class PerformanceBroker {
    var state: int
    var sequence: uint32
    var cases: seq<PerfCase>
    var active: int
    /** All samples of every case, which the broker itself forgets when the case ends. */
    ghost var log: seq<seq<Sample>>

    /** How many cases are finished: all but one that is active or was cut off by an abort. */
    ghost predicate Valid()
      reads this
    {
      && IDLE <= state <= ABORTED && |log| == |cases| <= MAXIMUM_CASES
      && (active == -1 || (active == |cases| - 1 && active >= 0 && state == RUNNING))
      && (forall i | 0 <= i < |cases| && i != active ::
            Summarises(cases[i], log[i], FramesBefore(log, i))
            || (state == ABORTED && i == |cases| - 1 && Collects(cases[i], log[i])))
      && (active >= 0 ==> Collects(cases[active], log[active]))
    }

    constructor ()
      ensures Valid() && state == IDLE && cases == [] && active == -1 && sequence == 0
    {
      state, sequence, cases, active, log := IDLE, 0, [], -1, [];
    }

    /** #125. `readable`: the guest structure has version 1, its full size and a name. */
    method BeginSuite(readable: bool) returns (code: int)
      requires Valid()
      modifies this
      ensures Valid()
      ensures code == if readable && old(state) != RUNNING then 0 else -1
      ensures code == 0 ==> state == RUNNING && cases == [] && active == -1 && sequence == U32(old(sequence) + 1)
      ensures code != 0 ==> unchanged(this)
    {
      if !readable || state == RUNNING { return -1; }
      sequence := U32(sequence + 1);
      state, cases, active, log := RUNNING, [], -1, [];
      return 0;
    }

    /** #126. `capacity` is what the allocator made of reserving `limit` samples. */
    method BeginCase(readable: bool, index: uint32, mode: uint32, limit: uint32, capacity: nat) returns (code: int)
      requires Valid() && (limit <= MAXIMUM_SAMPLES ==> limit <= capacity < RESERVE_LIMIT)
      modifies this
      ensures Valid()
      ensures code == if old(state) == RUNNING && old(active) < 0 && |old(cases)| < MAXIMUM_CASES && readable
                         && 0 < limit <= MAXIMUM_SAMPLES then 0 else -1
      ensures code == 0 ==>
        && cases == old(cases) + [NewCase(index, mode, capacity)] && active == |old(cases)|
        && log == old(log) + [[]] && state == RUNNING && sequence == old(sequence)
      ensures code != 0 ==> unchanged(this)
    {
      hide Summarises, Sum, Missed;
      if state != RUNNING || active >= 0 || |cases| >= MAXIMUM_CASES || limit == 0 || limit > MAXIMUM_SAMPLES
         || !readable {
        return -1;
      }
      EmptyColumns(index, mode, capacity);
      forall i | 0 <= i <= |log| ensures FramesBefore(log + [[]], i) == FramesBefore(log, i) {
        FramesSame(log + [[]], log, i);
      }
      cases := cases + [NewCase(index, mode, capacity)];
      log := log + [[]];
      active := |cases| - 1;
      return 0;
    }

    /** #127: one frame's times; a zero total means the sum of the parts, in 32 bits. */
    method Record(header: bool, readable: bool, update: uint32, draw: uint32, present: uint32, given: uint32)
      returns (code: int)
      requires Valid()
      modifies this
      ensures Valid()
      ensures code == if old(active) < 0 || !header then -1
                      else if |old(cases)[old(active)].samples| >= old(cases)[old(active)].capacity then -2
                      else if !readable then -1 else 0
      ensures code == 0 ==>
        && state == old(state) && active == old(active) && sequence == old(sequence)
        && log == old(log)[active := old(log)[active] +
             [Sample(update, draw, present, if given == 0 then U32(update + draw + present) else given)]]
      ensures code != 0 ==> unchanged(this)
    {
      hide Summarises, Sum, Missed;
      if active < 0 || !header { return -1; }
      var c := cases[active];
      if |c.samples| >= c.capacity { return -2; }
      if !readable { return -1; }
      var total := if given == 0 then U32(update + draw + present) else given;
      ghost var s := Sample(update, draw, present, total);
      ColumnsSnoc(log[active], s);
      ghost var log' := log[active := log[active] + [s]];
      forall i | 0 <= i < active ensures FramesBefore(log', i) == FramesBefore(log, i) {
        FramesSame(log, log', i);
      }
      cases := cases[active := c.(
        samples := c.samples + [total],
        updateTotal := c.updateTotal + update, drawTotal := c.drawTotal + draw,
        presentTotal := c.presentTotal + present, frameTotal := c.frameTotal + total,
        missed := if total > FRAME_BUDGET_US then c.missed + 1 else c.missed)];
      log := log';
      return 0;
    }

    /** #128: close the active case, or drop it when it has no samples. */
    method EndCase() returns (code: int)
      requires Valid()
      modifies this
      ensures Valid() && active == -1 && state == old(state) && sequence == old(sequence)
      ensures code == if old(active) < 0 then -1 else if old(log)[old(active)] == [] then -2 else 0
      ensures code == -1 ==> cases == old(cases) && log == old(log)
      ensures code == -2 ==> cases == old(cases)[..|old(cases)| - 1] && log == old(log)[..|old(cases)| - 1]
      ensures code == 0 ==>
        && log == old(log) && |cases| == |old(cases)| && cases[..|cases| - 1] == old(cases)[..|cases| - 1]
        && Summarises(cases[|cases| - 1], log[|cases| - 1], FramesBefore(log, |cases| - 1))
    {
      hide Sum, Missed, Summarises, Closed, RankIndex, Sorted;
      if active < 0 { return -1; }
      var c := cases[active];
      if c.samples == [] {
        forall i | 0 <= i < active ensures FramesBefore(log[..active], i) == FramesBefore(log, i) {
          FramesSame(log, log[..active], i);
        }
        cases, log, active := cases[..active], log[..active], -1;
        return -2;
      }
      ClosedSummarises(c, log[active], FramesBefore(log, active));
      c := Close(c);
      cases := cases[active := c];
      active := -1;
      return 0;
    }

    /** The statistics of a case that ends, as call 128 computes them from its sorted samples. */
    method Close(c: PerfCase) returns (r: PerfCase)
      requires Valid() && active >= 0 && c == cases[active] && c.samples != []
      ensures r == Closed(c, FramesBefore(log, active))
    {
      hide Sum, Missed, Sorted, RankIndex, Percentile, Accumulates, Average, Summarises, Collects, FramesBefore;
      var first := FirstFrame();
      var sorted := Sorted(c.samples);
      var frames := |sorted|;
      r := c.(
        samples := [], frames := frames, first := first, min := sorted[0], max := sorted[frames - 1],
        mean := Average(c.frameTotal, frames),
        p50 := sorted[RankIndex(frames, 50)], p95 := sorted[RankIndex(frames, 95)], p99 := sorted[RankIndex(frames, 99)],
        update := Average(c.updateTotal, frames), draw := Average(c.drawTotal, frames),
        present := Average(c.presentTotal, frames));
    }

    /** The frames of the cases before the open one. */
    method FirstFrame() returns (first: nat)
      requires Valid() && active >= 0
      ensures first == FramesBefore(log, active)
    {
      hide Summarises, Collects;
      first := 0;
      var j := 0;
      while j < active
        invariant 0 <= j <= active && first == FramesBefore(log, j)
      {
        FramesOf(cases[j], log[j], FramesBefore(log, j));
        first := first + cases[j].frames;
        j := j + 1;
      }
    }

    /** #129. */
    method EndSuite() returns (code: int)
      requires Valid()
      modifies this`state
      ensures Valid()
      ensures code == if old(state) == RUNNING && active < 0 then 0 else -1
      ensures state == if code == 0 then COMPLETE else old(state)
    {
      if state != RUNNING || active >= 0 { return -1; }
      state := COMPLETE;
      return 0;
    }

    /** #130. */
    method Abort() returns (code: int)
      requires Valid()
      modifies this`state, this`active
      ensures Valid()
      ensures code == if old(state) == RUNNING then 0 else -1
      ensures code == 0 ==> state == ABORTED && active == -1
      ensures code != 0 ==> state == old(state) && active == old(active)
    {
      if state != RUNNING { return -1; }
      state, active := ABORTED, -1;
      return 0;
    }

    /** #132: totals over all cases of a completed suite. */
    method Summarise() returns (summary: Option<Summary>)
      requires Valid()
      ensures summary.Some? <==> state == COMPLETE
      ensures summary.Some? ==> SuiteSummary(summary.value, log) && IsScreenCount(summary.value.screens, cases)
    {
      hide Sum, Summarises, Collects, IsLeast, IsGreatest, FramesBefore, MissedOver, SumOver, Present, Average,
           FramesPerSecond,
           SuiteSummary, IsScreenCount;
      if state != COMPLETE { return None; }
      NothingYet(log);
      NoScreens(cases[..0]);
      var frames: nat, min: int, max: int, missed: nat, screens: nat := 0, TWO32 - 1, 0, 0, 0;
      var total: nat, update: nat, draw: nat, present: nat := 0, 0, 0, 0;
      for i := 0 to |cases|
        invariant frames == FramesBefore(log, i) && missed == MissedOver(log, i) && frames >= i
        invariant total == SumOver(log, Totals, i) && update == SumOver(log, Updates, i)
        invariant draw == SumOver(log, Draws, i) && present == SumOver(log, Presents, i)
        invariant 0 <= min < TWO32 && 0 <= max < TWO32 && (i > 0 ==> IsLeast(log, i, min) && IsGreatest(log, i, max))
        invariant i == 0 ==> min == TWO32 - 1 && max == 0
        invariant IsScreenCount(screens, cases[..i])
      {
        var c := cases[i];
        assert Summarises(c, log[i], FramesBefore(log, i));
        CaseContributes(c, log, i);
        LeastOfCase(c, log, i);
        LeastExtends(log, i, min, c.min);
        GreatestExtends(log, i, max, c.max);
        frames := frames + c.frames;
        total, update := total + c.frameTotal, update + c.updateTotal;
        draw, present := draw + c.drawTotal, present + c.presentTotal;
        min, max := Words.Min(min, c.min), Words.Max(max, c.max);
        missed := missed + c.missed;
        ScreenCountExtends(screens, cases[..i], c);
        assert cases[..i + 1] == cases[..i] + [c];
        screens := Words.Max(screens, U32(c.index + 1));
      }
      summary := Some(Summary(
        frames, FramesPerSecond(frames, total),
        if min == TWO32 - 1 then 0 else min, if frames == 0 then 0 else Average(total, frames), max, missed,
        if frames == 0 then 0 else Average(update, frames), if frames == 0 then 0 else Average(draw, frames),
        if frames == 0 then 0 else Average(present, frames), screens));
      assert cases[..|cases|] == cases;
      SummaryHolds(summary.value, log, min);
    }
  }

  lemma SummaryHolds(s: Summary, log: seq<seq<Sample>>, min: int)
    requires var n, frames := |log|, FramesBefore(log, |log|);
      && s.frames == frames && s.missed == MissedOver(log, n)
      && s.fps100 == FramesPerSecond(frames, SumOver(log, Totals, n)) && s.min == (if min == TWO32 - 1 then 0 else min)
      && if frames == 0 then min == TWO32 - 1 && s.max == 0 == s.mean == s.update == s.draw == s.present
         else && s.mean == Average(SumOver(log, Totals, n), frames) && s.update == Average(SumOver(log, Updates, n), frames)
              && s.draw == Average(SumOver(log, Draws, n), frames)
              && s.present == Average(SumOver(log, Presents, n), frames)
              && IsLeast(log, n, min) && IsGreatest(log, n, s.max)
    ensures SuiteSummary(s, log)
  {
    hide Average, IsLeast, IsGreatest, SumOver, FramesBefore, MissedOver;
    if s.frames > 0 {
      LeastUnique(log, |log|, min);
      SumOverFits(log, |log|, Totals);
      SumOverFits(log, |log|, Updates);
      SumOverFits(log, |log|, Draws);
      SumOverFits(log, |log|, Presents);
    }
  }

  lemma LeastUnique(log: seq<seq<Sample>>, n: nat, v: int)
    requires IsLeast(log, n, v)
    ensures forall u :: IsLeast(log, n, u) ==> u == v
  {
  }
}
