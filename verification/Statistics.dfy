/** Sorting, sums and nearest-rank percentiles of sample lists. */
module Statistics {
  import opened Words

  predicate Ascending(s: seq<uint32>) {
    |s| <= 1 || (s[0] <= s[1] && Ascending(s[1..]))
  }

  lemma {:induction false} AscendingPairs(s: seq<uint32>, i: nat, j: nat)
    requires Ascending(s) && i <= j < |s|
    ensures s[i] <= s[j]
    decreases j
  {
    if j == 0 {
    } else {
      AscendingPairs(s[1..], Max(0, i - 1), j - 1);
    }
  }

  function Insert(s: seq<uint32>, v: uint32): (r: seq<uint32>)
    requires Ascending(s)
    ensures Ascending(r) && |r| == |s| + 1
    ensures r[0] == if s == [] || v <= s[0] then v else s[0]
  {
    if s == [] || v <= s[0] then [v] + s else [s[0]] + Insert(s[1..], v)
  }

  lemma TailAscends(s: seq<uint32>)
    requires Ascending(s) && s != []
    ensures Ascending(s[1..])
  {
  }

  lemma {:induction false} InsertAdds(s: seq<uint32>, v: uint32)
    requires Ascending(s)
    ensures multiset(Insert(s, v)) == multiset(s) + multiset{v}
    decreases |s|
  {
    hide Ascending;
    if s == [] || v <= s[0] {
      assert Insert(s, v) == [v] + s;
    } else {
      TailAscends(s);
      InsertAdds(s[1..], v);
      assert s == [s[0]] + s[1..];
      assert Insert(s, v) == [s[0]] + Insert(s[1..], v);
    }
  }

  /** What std::sort leaves. */
  function Sorted(s: seq<uint32>): (r: seq<uint32>)
    ensures Ascending(r) && |r| == |s|
  {
    if s == [] then [] else Insert(Sorted(s[1..]), s[0])
  }

  lemma {:induction false} SortedPermutes(s: seq<uint32>)
    ensures multiset(Sorted(s)) == multiset(s)
    decreases |s|
  {
    if s == [] {
    } else {
      SortedPermutes(s[1..]);
      InsertAdds(Sorted(s[1..]), s[0]);
      assert s == [s[0]] + s[1..];
    }
  }

  function Sum(s: seq<uint32>): nat {
    if s == [] then 0 else s[0] + Sum(s[1..])
  }

  lemma {:induction false} SumSnoc(s: seq<uint32>, v: uint32)
    ensures Sum(s + [v]) == Sum(s) + v
    decreases |s|
  {
    if s == [] {
    } else {
      assert (s + [v])[1..] == s[1..] + [v];
      SumSnoc(s[1..], v);
    }
  }

  lemma {:induction false} SumBounds(s: seq<uint32>, low: uint32, high: uint32)
    requires forall i | 0 <= i < |s| :: low <= s[i] <= high
    ensures low * |s| <= Sum(s) <= high * |s|
    decreases |s|
  {
    if s == [] {
    } else {
      SumBounds(s[1..], low, high);
      assert low * |s| == low * (|s| - 1) + low && high * |s| == high * (|s| - 1) + high;
    }
  }

  /** How many samples are below, or at most, a threshold. */
  function CountBelow(s: seq<uint32>, t: int): nat {
    if s == [] then 0 else (if s[0] < t then 1 else 0) + CountBelow(s[1..], t)
  }

  lemma {:induction false} CountConcat(a: seq<uint32>, b: seq<uint32>, t: int)
    ensures CountBelow(a + b, t) == CountBelow(a, t) + CountBelow(b, t)
    decreases |a|
  {
    if a == [] {
      assert a + b == b;
    } else {
      assert (a + b)[1..] == a[1..] + b;
      CountConcat(a[1..], b, t);
    }
  }

  /** Counting does not depend on the order of the samples. */
  lemma {:induction false} CountPermutation(a: seq<uint32>, b: seq<uint32>, t: int)
    requires multiset(a) == multiset(b)
    ensures CountBelow(a, t) == CountBelow(b, t)
    decreases |a|
  {
    if a == [] {
      assert |multiset(b)| == 0;
    } else {
      var v := a[0];
      assert v in multiset(b);
      var k :| 0 <= k < |b| && b[k] == v;
      assert a == [v] + a[1..];
      RemoveOne(b, k, t);
      CountPermutation(a[1..], b[..k] + b[k + 1..], t);
    }
  }

  lemma RemoveOne(b: seq<uint32>, k: nat, t: int)
    requires k < |b|
    ensures CountBelow(b, t) == CountBelow(b[..k] + b[k + 1..], t) + if b[k] < t then 1 else 0
    ensures multiset(b[..k] + b[k + 1..]) == multiset(b) - multiset{b[k]}
  {
    assert b == b[..k] + ([b[k]] + b[k + 1..]);
    CountConcat(b[..k], b[k + 1..], t);
    CountConcat(b[..k], [b[k]] + b[k + 1..], t);
    assert ([b[k]] + b[k + 1..])[1..] == b[k + 1..];
  }

  lemma {:induction false} CountAll(s: seq<uint32>, t: int)
    ensures (forall i | 0 <= i < |s| :: s[i] < t) ==> CountBelow(s, t) == |s|
    ensures (forall i | 0 <= i < |s| :: s[i] >= t) ==> CountBelow(s, t) == 0
    ensures CountBelow(s, t) <= |s|
    decreases |s|
  {
    if s == [] {
    } else {
      CountAll(s[1..], t);
      assert forall i | 0 <= i < |s[1..]| :: s[1..][i] == s[i + 1];
    }
  }

  /** Index of the n-th percentile in a sorted list of `size` samples. */
  function RankIndex(size: nat, n: nat): (k: nat)
    requires size > 0 && 1 <= n <= 100
    ensures k < size
  {
    Min(size - 1, (size * n + 99) / 100 - 1)
  }

  function Percentile(s: seq<uint32>, n: nat): uint32
    requires s != [] && 1 <= n <= 100
  {
    Sorted(s)[RankIndex(|s|, n)]
  }

  lemma RankBounds(size: nat, n: nat)
    requires size > 0 && 1 <= n <= 100
    ensures 100 * RankIndex(size, n) < size * n <= 100 * (RankIndex(size, n) + 1)
  {
    assert size * n <= size * 100;
  }

  /**
   * The percentile is the nearest rank of the unsorted samples: at least n percent of them are at most it, and
   * fewer than n percent are below it.
   */
  lemma PercentileIsNearestRank(s: seq<uint32>, n: nat)
    requires s != [] && 1 <= n <= 100
    ensures var p: int := Percentile(s, n);
      p in s && 100 * CountBelow(s, p + 1) >= n * |s| && 100 * CountBelow(s, p) < n * |s|
  {
    hide CountBelow, RankIndex, Sorted;
    var r, k := Sorted(s), RankIndex(|s|, n);
    var p: int := r[k];
    SortedPermutes(s);
    assert r[k] in multiset(r);
    RankBounds(|s|, n);
    CountPermutation(s, r, p);
    CountPermutation(s, r, p + 1);
    CountAroundRank(r, k, p);
  }

  lemma AtMost(r: seq<uint32>, k: nat, t: int)
    requires k <= |r| && forall i | k <= i < |r| :: r[i] >= t
    ensures CountBelow(r, t) <= k
  {
    assert r == r[..k] + r[k..];
    CountConcat(r[..k], r[k..], t);
    CountAll(r[..k], t);
    CountAll(r[k..], t);
  }

  lemma AtLeast(r: seq<uint32>, k: nat, t: int)
    requires k <= |r| && forall i | 0 <= i < k :: r[i] < t
    ensures CountBelow(r, t) >= k
  {
    assert r == r[..k] + r[k..];
    CountConcat(r[..k], r[k..], t);
    CountAll(r[..k], t);
  }

  /** In an ascending list at most k entries are below entry k, and at least k + 1 are at most it. */
  lemma CountAroundRank(r: seq<uint32>, k: nat, p: int)
    requires Ascending(r) && k < |r| && p == r[k]
    ensures CountBelow(r, p) <= k && CountBelow(r, p + 1) >= k + 1
  {
    hide Ascending, CountBelow;
    forall i | 0 <= i <= k ensures r[i] <= p { AscendingPairs(r, i, k); }
    forall i | k <= i < |r| ensures r[i] >= p { AscendingPairs(r, k, i); }
    AtMost(r, k, p);
    AtLeast(r, k + 1, p + 1);
  }

  /** Least, percentiles and greatest are in order, and the rounded-down mean lies between the extremes. */
  lemma StatisticsOrdered(s: seq<uint32>)
    requires s != []
    ensures var r := Sorted(s);
      && r[0] <= Percentile(s, 50) <= Percentile(s, 95) <= Percentile(s, 99) <= r[|r| - 1]
      && r[0] <= Sum(s) / |s| <= r[|r| - 1]
      && forall i | 0 <= i < |s| :: r[0] <= s[i] <= r[|r| - 1]
  {
    hide Sorted, Sum, Ascending, RankIndex;
    var r := Sorted(s);
    RankMonotone(|s|, 50, 95);
    RankMonotone(|s|, 95, 99);
    AscendingPairs(r, 0, RankIndex(|s|, 50));
    AscendingPairs(r, RankIndex(|s|, 50), RankIndex(|s|, 95));
    AscendingPairs(r, RankIndex(|s|, 95), RankIndex(|s|, 99));
    AscendingPairs(r, RankIndex(|s|, 99), |r| - 1);
    SortedBounds(s);
    SumBounds(s, r[0], r[|r| - 1]);
    DivideBounds(Sum(s), |s|, r[0], r[|r| - 1]);
  }

  lemma SortedBounds(s: seq<uint32>)
    requires s != []
    ensures forall i | 0 <= i < |s| :: Sorted(s)[0] <= s[i] <= Sorted(s)[|s| - 1]
  {
    var r := Sorted(s);
    SortedPermutes(s);
    forall i | 0 <= i < |s| ensures r[0] <= s[i] <= r[|s| - 1] {
      assert s[i] in multiset(r);
      var k :| 0 <= k < |r| && r[k] == s[i];
      AscendingPairs(r, 0, k);
      AscendingPairs(r, k, |r| - 1);
    }
  }

  lemma RankMonotone(size: nat, a: nat, b: nat)
    requires size > 0 && 1 <= a <= b <= 100
    ensures RankIndex(size, a) <= RankIndex(size, b)
  {
    assert size * a <= size * b;
  }

  lemma DivideBounds(total: nat, n: nat, low: nat, high: nat)
    requires n > 0 && low * n <= total <= high * n
    ensures low <= total / n <= high
  {
    var q := total / n;
    assert total == n * q + total % n;
    assert q < low ==> n * (q + 1) <= n * low;
    assert q > high ==> n * q >= n * (high + 1);
  }
}
