/** The interpreter's ring of recently executed instruction addresses. */
module Trace {
  import opened Words

  const RING: nat := 64

  class InstructionTrace {
    const ring: array<uint32>
    var count: nat
    var next: nat
    var last: uint32
    /** Every address recorded since the last clear. */
    ghost var history: seq<uint32>

    ghost predicate Valid()
      reads this, ring
    {
      && ring.Length == RING
      && count == Min(|history|, RING) && next == |history| % RING
      && (forall k | |history| - count <= k < |history| :: ring[k % RING] == history[k])
      && (history != [] ==> last == history[|history| - 1])
    }

    constructor ()
      ensures Valid() && history == [] && fresh(ring)
    {
      ring := new uint32[RING](_ => 0);
      count, next, last, history := 0, 0, 0, [];
    }

    method Clear(address: uint32)
      requires Valid()
      modifies this
      ensures Valid() && history == [] && last == address
    {
      last, count, next, history := address, 0, 0, [];
    }

    method Record(address: uint32)
      requires Valid()
      modifies this, ring
      ensures Valid() && history == old(history) + [address]
    {
      ghost var n := |history|;
      last := address;
      ring[next] := address;
      next := (next + 1) % RING;
      count := Min(count + 1, RING);
      history := history + [address];
      assert ring[n % RING] == history[n];
      forall k | |history| - count <= k < n
        ensures ring[k % RING] == history[k]
      {
        DistinctSlots(k, n);
      }
      NextSlot(n);
    }

    /** The last addresses recorded, at most a ring full of them, oldest first. */
    method Recent() returns (addresses: seq<uint32>)
      requires Valid()
      ensures addresses == history[|history| - Min(|history|, RING)..]
    {
      addresses := [];
      var oldest := (next + RING - count) % RING;
      ghost var first := |history| - count;
      for index := 0 to count
        invariant addresses == history[first..first + index]
      {
        SameSlot(|history|, count, index);
        addresses := addresses + [ring[(oldest + index) % RING]];
      }
    }
  }

  lemma NextSlot(n: nat)
    ensures (n % RING + 1) % RING == (n + 1) % RING
  {
  }

  /** Addresses less than a ring apart have slots of their own. */
  lemma DistinctSlots(k: nat, n: nat)
    requires k < n < k + RING
    ensures k % RING != n % RING
  {
  }

  lemma SameSlot(n: nat, count: nat, index: nat)
    requires index < count <= RING && count <= n
    ensures ((n % RING + RING - count) % RING + index) % RING == (n - count + index) % RING
  {
    var q, r := n / RING, n % RING;
    if r >= count { SameRemainder(r - count + index, q); }
    else { SameRemainder(r + RING - count + index, q - 1); }
  }

  lemma SameRemainder(a: int, q: int)
    ensures (a + RING * q) % RING == a % RING
  {
  }
}
