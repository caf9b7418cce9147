/**
 * The best-fit buffer pool of the threaded hasher: MAX_THREADS blocks with
 * their capacities and in-use flags, the running total of reserved bytes
 * and the index of the largest block. The lock and the blocking wait for a
 * free block are not modelled.
 */
module BufferPool {
  const MAX_THREADS: nat := 10
  const MAX_TOTAL_SIZE: nat := 1024 * 1024 * 200 * MAX_THREADS
  /** size_t's range and its all-ones value, the initial "no delta yet". */
  const SIZE_T_LIMIT: nat := 0x1_0000_0000_0000_0000
  const SIZE_MAX: nat := SIZE_T_LIMIT - 1
  /** uint(-1): no index. */
  const NO_IDX: int := 0xFFFF_FFFF

  function Sum(s: seq<nat>): nat
  {
    if s == [] then 0 else Sum(s[..|s| - 1]) + s[|s| - 1]
  }

  lemma {:induction false} SumUpdate(s: seq<nat>, i: nat, v: nat)
    requires i < |s|
    ensures Sum(s[i := v]) + s[i] == Sum(s) + v
    decreases |s|
  {
    var t := s[i := v];
    if i < |s| - 1 {
      assert t[..|t| - 1] == s[..|s| - 1][i := v];
      SumUpdate(s[..|s| - 1], i, v);
    } else {
      assert t[..|t| - 1] == s[..|s| - 1];
    }
  }

  lemma {:induction false} SumZeros(s: seq<nat>)
    requires forall i :: 0 <= i < |s| ==> s[i] == 0
    ensures Sum(s) == 0
    decreases |s|
  {
    if s != [] {
      SumZeros(s[..|s| - 1]);
    }
  }

  /** A sequence that is zero except at one place sums to that place. */
  lemma SumSingle(s: seq<nat>, i: nat)
    requires i < |s| && forall k :: 0 <= k < |s| && k != i ==> s[k] == 0
    ensures Sum(s) == s[i]
  {
    SumUpdate(s, i, 0);
    SumZeros(s[i := 0]);
  }

  class Pool {
    const capacity: array<nat>
    const used: array<bool>
    var total: nat
    var maxBufIdx: int

    predicate Valid()
      reads this, capacity
    {
      capacity.Length == MAX_THREADS && used.Length == MAX_THREADS
      && (maxBufIdx == NO_IDX || 0 <= maxBufIdx < MAX_THREADS)
      && forall i :: 0 <= i < MAX_THREADS ==> capacity[i] < SIZE_MAX
    }

    /** The total records exactly the bytes the blocks hold. */
    predicate Accounted()
      reads this, capacity
    {
      total == Sum(capacity[..])
    }

    /** A free block that holds more than the request. */
    predicate Roomy(i: int, request: nat)
      reads this, capacity, used
      requires Valid()
    {
      0 <= i < MAX_THREADS && !used[i] && request < capacity[i]
    }

    /** A free block that holds no more than the request. */
    predicate Short(i: int, request: nat)
      reads this, capacity, used
      requires Valid()
    {
      0 <= i < MAX_THREADS && !used[i] && capacity[i] <= request
    }

    /** The roomy block with the least excess, the lowest index on ties. */
    predicate BestRoomy(b: int, request: nat)
      reads this, capacity, used
      requires Valid()
    {
      Roomy(b, request)
      && forall j :: 0 <= j < MAX_THREADS && Roomy(j, request) ==>
           capacity[b] < capacity[j] || (capacity[b] == capacity[j] && b <= j)
    }

    /** The short block with the least shortfall, the lowest index on ties. */
    predicate BestShort(b: int, request: nat)
      reads this, capacity, used
      requires Valid()
    {
      Short(b, request)
      && forall j :: 0 <= j < MAX_THREADS && Short(j, request) ==>
           capacity[j] < capacity[b] || (capacity[j] == capacity[b] && b <= j)
    }

    constructor()
      ensures Valid() && Accounted() && fresh(capacity) && fresh(used)
      ensures total == 0 && maxBufIdx == NO_IDX
      ensures forall i :: 0 <= i < MAX_THREADS ==> capacity[i] == 0 && !used[i]
    {
      capacity := new nat[MAX_THREADS](_ => 0);
      used := new bool[MAX_THREADS](_ => false);
      total := 0;
      maxBufIdx := NO_IDX;
      new;
      SumZeros(capacity[..]);
    }

    /** The scan of getBuffer: bestIdx1 (best roomy block) and bestIdx2 (best short block). */
    method Select(request: nat) returns (bestIdx1: int, bestIdx2: int)
      requires Valid() && request < SIZE_MAX
      ensures bestIdx1 == NO_IDX ==> forall i :: 0 <= i < MAX_THREADS ==> !Roomy(i, request)
      ensures bestIdx1 != NO_IDX ==> BestRoomy(bestIdx1, request)
      ensures bestIdx2 == NO_IDX ==> forall i :: 0 <= i < MAX_THREADS ==> !Short(i, request)
      ensures bestIdx2 != NO_IDX ==> BestShort(bestIdx2, request)
    {
      bestIdx1, bestIdx2 := NO_IDX, NO_IDX;
      var delta1: nat := SIZE_MAX;
      var delta2: nat := SIZE_MAX;
      var idx := 0;
      while idx < MAX_THREADS
        invariant 0 <= idx <= MAX_THREADS
        invariant bestIdx1 == NO_IDX ==> forall i :: 0 <= i < idx ==> !Roomy(i, request)
        invariant bestIdx1 == NO_IDX ==> delta1 == SIZE_MAX
        invariant bestIdx1 != NO_IDX ==> bestIdx1 < idx && Roomy(bestIdx1, request) && delta1 == capacity[bestIdx1] - request
        invariant bestIdx1 != NO_IDX ==> forall j :: 0 <= j < idx && Roomy(j, request) ==>
          capacity[bestIdx1] < capacity[j] || (capacity[bestIdx1] == capacity[j] && bestIdx1 <= j)
        invariant bestIdx2 == NO_IDX ==> forall i :: 0 <= i < idx ==> !Short(i, request)
        invariant bestIdx2 == NO_IDX ==> delta2 == SIZE_MAX
        invariant bestIdx2 != NO_IDX ==> bestIdx2 < idx && Short(bestIdx2, request) && delta2 == request - capacity[bestIdx2]
        invariant bestIdx2 != NO_IDX ==> forall j :: 0 <= j < idx && Short(j, request) ==>
          capacity[j] < capacity[bestIdx2] || (capacity[j] == capacity[bestIdx2] && bestIdx2 <= j)
      {
        if !used[idx] {
          var blockCapacity := capacity[idx];
          if request < blockCapacity {
            var newDelta := blockCapacity - request;
            if newDelta < delta1 {
              bestIdx1 := idx;
              delta1 := newDelta;
            }
          } else {
            var newDelta := request - blockCapacity;
            if newDelta < delta2 {
              bestIdx2 := idx;
              delta2 := newDelta;
            }
          }
        }
        idx := idx + 1;
      }
    }

    /**
     * getBuffer, once some block is free: the best roomy block if there is
     * one, otherwise the best short block, grown to the request with the
     * growth added to the total.
     */
    method GetBuffer(request: nat) returns (bestIdx: nat)
      requires Valid() && request < SIZE_MAX
      requires exists i :: 0 <= i < MAX_THREADS && !used[i]
      modifies this, capacity, used
      ensures Valid() && (old(Accounted()) ==> Accounted())
      ensures bestIdx < MAX_THREADS && !old(used[bestIdx]) && used[bestIdx]
      ensures forall i :: 0 <= i < MAX_THREADS && i != bestIdx ==> used[i] == old(used[i])
      ensures forall i :: 0 <= i < MAX_THREADS && i != bestIdx ==> capacity[i] == old(capacity[i])
      ensures (exists i :: 0 <= i < MAX_THREADS && old(Roomy(i, request))) ==>
        old(BestRoomy(bestIdx, request)) && capacity[bestIdx] == old(capacity[bestIdx])
        && total == old(total) && maxBufIdx == old(maxBufIdx)
      ensures (forall i :: 0 <= i < MAX_THREADS ==> !old(Roomy(i, request))) ==>
        old(BestShort(bestIdx, request)) && capacity[bestIdx] == request
        && total == old(total) + (request - old(capacity[bestIdx]))
        && maxBufIdx == (if old(maxBufIdx) == NO_IDX || request > old(capacity[maxBufIdx]) || old(maxBufIdx) == bestIdx
                         then bestIdx else old(maxBufIdx))
    {
      var bestIdx1, bestIdx2 := Select(request);
      if bestIdx1 != NO_IDX {
        bestIdx := bestIdx1;
        assert old(BestRoomy(bestIdx, request));
      } else {
        forall i | 0 <= i < MAX_THREADS
          ensures !old(Roomy(i, request))
        {
          assert !Roomy(i, request);
        }
        var free :| 0 <= free < MAX_THREADS && !used[free];
        assert !Roomy(free, request);
        assert Short(free, request);
        bestIdx := bestIdx2;
        ghost var before := capacity[..];
        total := total + (request - capacity[bestIdx]);
        SumUpdate(before, bestIdx, request);
        capacity[bestIdx] := request;
        assert capacity[..] == before[bestIdx := request];
        if maxBufIdx == NO_IDX || request > capacity[maxBufIdx] {
          maxBufIdx := bestIdx;
        }
      }
      used[bestIdx] := true;
    }

    /**
     * releaseBuffer, with the block's memory given back: when the block is
     * the largest one and the total is over its limit, its bytes leave the
     * total and its capacity drops to zero.
     */
    method ReleaseBuffer(bufIdx: nat)
      requires Valid() && Accounted() && bufIdx < MAX_THREADS
      modifies this, capacity, used
      ensures Valid() && Accounted()
      ensures !used[bufIdx] && forall i :: 0 <= i < MAX_THREADS && i != bufIdx ==> used[i] == old(used[i])
      ensures forall i :: 0 <= i < MAX_THREADS && i != bufIdx ==> capacity[i] == old(capacity[i])
      ensures old(bufIdx == maxBufIdx && total > MAX_TOTAL_SIZE) ==>
        total == old(total) - old(capacity[bufIdx]) && capacity[bufIdx] == 0 && maxBufIdx == NO_IDX
      ensures !old(bufIdx == maxBufIdx && total > MAX_TOTAL_SIZE) ==>
        total == old(total) && capacity[bufIdx] == old(capacity[bufIdx]) && maxBufIdx == old(maxBufIdx)
    {
      if bufIdx == maxBufIdx && total > MAX_TOTAL_SIZE {
        ghost var before := capacity[..];
        SumUpdate(before, bufIdx, 0);
        total := total - capacity[bufIdx];
        capacity[bufIdx] := 0;
        assert capacity[..] == before[bufIdx := 0];
        maxBufIdx := NO_IDX;
      }
      used[bufIdx] := false;
    }

    /**
     * releaseBuffer as written: vector::clear() keeps the capacity, so the
     * block's bytes leave the total (wrapping in size_t) while the block
     * still holds them.
     */
    method ReleaseBufferAsWritten(bufIdx: nat)
      requires Valid() && bufIdx < MAX_THREADS
      modifies this, used
      ensures Valid()
      ensures !used[bufIdx] && forall i :: 0 <= i < MAX_THREADS && i != bufIdx ==> used[i] == old(used[i])
      ensures capacity[..] == old(capacity[..])
      ensures old(bufIdx == maxBufIdx && total > MAX_TOTAL_SIZE) ==>
        total == (old(total) - capacity[bufIdx]) % SIZE_T_LIMIT && maxBufIdx == NO_IDX
      ensures !old(bufIdx == maxBufIdx && total > MAX_TOTAL_SIZE) ==>
        total == old(total) && maxBufIdx == old(maxBufIdx)
    {
      if bufIdx == maxBufIdx && total > MAX_TOTAL_SIZE {
        total := (total - capacity[bufIdx]) % SIZE_T_LIMIT;
        maxBufIdx := NO_IDX;
      }
      used[bufIdx] := false;
    }
  }

  /**
   * The drift as written: a 2097152001-byte buffer is taken and released,
   * then a 4194304002-byte one reuses the same block. Releasing it subtracts
   * the block's whole capacity from a total that only counted its growth:
   * the total wraps around while the blocks hold 4194304002 bytes.
   */
  method DriftAsWritten() returns (wrappedTotal: nat, held: nat)
    ensures wrappedTotal == SIZE_T_LIMIT - 2097152001 && held == 4194304002
  {
    var p := new Pool();
    label Fresh:
    assert p.Short(0, 2097152001);
    assert forall k :: 0 <= k < MAX_THREADS ==> !p.Roomy(k, 2097152001);
    var i := p.GetBuffer(2097152001);
    assert old@Fresh(p.BestShort(i, 2097152001));
    assert old@Fresh(p.Short(0, 2097152001));
    assert i == 0;
    p.ReleaseBufferAsWritten(0);
    assert p.total == 0 && p.maxBufIdx == NO_IDX;
    label Reused:
    assert p.Short(0, 4194304002);
    assert forall k :: 0 <= k < MAX_THREADS ==> !p.Roomy(k, 4194304002);
    var j := p.GetBuffer(4194304002);
    assert old@Reused(p.BestShort(j, 4194304002));
    assert old@Reused(p.Short(0, 4194304002));
    assert j == 0;
    assert p.total == 2097152001 && p.maxBufIdx == 0;
    p.ReleaseBufferAsWritten(0);
    SumSingle(p.capacity[..], 0);
    wrappedTotal := p.total;
    held := Sum(p.capacity[..]);
  }

  /** The same two requests with the corrected release: the total stays the bytes held. */
  method DriftCorrected() returns (total: nat, held: nat)
    ensures total == held
  {
    var q := new Pool();
    var k := q.GetBuffer(2097152001);
    q.ReleaseBuffer(k);
    var m := q.GetBuffer(4194304002);
    q.ReleaseBuffer(m);
    total := q.total;
    held := Sum(q.capacity[..]);
  }
}
