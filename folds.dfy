/**
 * Order-independent sums over finite maps and sets. The counters a loop
 * over a std::map accumulates do not depend on the order of its keys, so
 * they are stated through these folds.
 */
module Folds {

  /** Total length of the sequences stored in `m`. */
  ghost function SumLens<K, V>(m: map<K, seq<V>>): nat
    decreases |m.Keys|
  {
    if m == map[] then 0
    else
      var k :| k in m;
      |m[k]| + SumLens(m - {k})
  }

  /** Sum over the entries of `m` of (length - 1), for lengths above one. */
  ghost function SumExcess<K, V>(m: map<K, seq<V>>): nat
    decreases |m.Keys|
  {
    if m == map[] then 0
    else
      var k :| k in m;
      Excess(|m[k]|) + SumExcess(m - {k})
  }

  /** What a group of `n` members adds to a duplicate counter. */
  function Excess(n: nat): (r: nat)
    ensures n <= 1 ==> r == 0
    ensures n > 1 ==> r + 1 == n
  {
    if n > 1 then n - 1 else 0
  }

  lemma {:induction false} SumLensRemove<K, V>(m: map<K, seq<V>>, x: K)
    requires x in m
    ensures SumLens(m) == |m[x]| + SumLens(m - {x})
    decreases |m.Keys|
  {
    var k :| k in m && SumLens(m) == |m[k]| + SumLens(m - {k});
    if k != x {
      assert |(m - {k}).Keys| < |m.Keys| by { assert m.Keys - {k} == (m - {k}).Keys; }
      assert |(m - {x}).Keys| < |m.Keys| by { assert m.Keys - {x} == (m - {x}).Keys; }
      SumLensRemove(m - {k}, x);
      SumLensRemove(m - {x}, k);
      assert m - {k} - {x} == m - {x} - {k};
    }
  }

  lemma {:induction false} SumExcessRemove<K, V>(m: map<K, seq<V>>, x: K)
    requires x in m
    ensures SumExcess(m) == Excess(|m[x]|) + SumExcess(m - {x})
    decreases |m.Keys|
  {
    var k :| k in m && SumExcess(m) == Excess(|m[k]|) + SumExcess(m - {k});
    if k != x {
      assert |(m - {k}).Keys| < |m.Keys| by { assert m.Keys - {k} == (m - {k}).Keys; }
      assert |(m - {x}).Keys| < |m.Keys| by { assert m.Keys - {x} == (m - {x}).Keys; }
      SumExcessRemove(m - {k}, x);
      SumExcessRemove(m - {x}, k);
      assert m - {k} - {x} == m - {x} - {k};
    }
  }

  /** Sum over the entries of `m` of the lengths above one. */
  ghost function SumCrowded<K, V>(m: map<K, seq<V>>): nat
    decreases |m.Keys|
  {
    if m == map[] then 0
    else
      var k :| k in m;
      Crowd(|m[k]|) + SumCrowded(m - {k})
  }

  /** What a group of `n` members adds when each member is counted once it has company. */
  function Crowd(n: nat): (r: nat)
    ensures n <= 1 ==> r == 0
    ensures n > 1 ==> r == n
  {
    if n > 1 then n else 0
  }

  lemma {:induction false} SumCrowdedRemove<K, V>(m: map<K, seq<V>>, x: K)
    requires x in m
    ensures SumCrowded(m) == Crowd(|m[x]|) + SumCrowded(m - {x})
    decreases |m.Keys|
  {
    var k :| k in m && SumCrowded(m) == Crowd(|m[k]|) + SumCrowded(m - {k});
    if k != x {
      assert |(m - {k}).Keys| < |m.Keys| by { assert m.Keys - {k} == (m - {k}).Keys; }
      assert |(m - {x}).Keys| < |m.Keys| by { assert m.Keys - {x} == (m - {x}).Keys; }
      SumCrowdedRemove(m - {k}, x);
      SumCrowdedRemove(m - {x}, k);
      assert m - {k} - {x} == m - {x} - {k};
    }
  }

  /**
   * A loop that visits the keys `ks` of `m` in order and adds Excess of each
   * group: what it has counted after visiting `ks`.
   */
  ghost function ExcessAlong<K, V>(m: map<K, seq<V>>, ks: seq<K>): nat
    decreases |ks|
  {
    if ks == [] then 0
    else
      var k := ks[|ks| - 1];
      ExcessAlong(m, ks[..|ks| - 1]) + (if k in m then Excess(|m[k]|) else 0)
  }

  /** The same loop adding Crowd of each group. */
  ghost function CrowdedAlong<K, V>(m: map<K, seq<V>>, ks: seq<K>): nat
    decreases |ks|
  {
    if ks == [] then 0
    else
      var k := ks[|ks| - 1];
      CrowdedAlong(m, ks[..|ks| - 1]) + (if k in m then Crowd(|m[k]|) else 0)
  }

  lemma ExcessAlongSnoc<K, V>(m: map<K, seq<V>>, ks: seq<K>, k: K)
    ensures ExcessAlong(m, ks + [k]) == ExcessAlong(m, ks) + (if k in m then Excess(|m[k]|) else 0)
  {
    assert (ks + [k])[..|ks|] == ks;
  }

  lemma CrowdedAlongSnoc<K, V>(m: map<K, seq<V>>, ks: seq<K>, k: K)
    ensures CrowdedAlong(m, ks + [k]) == CrowdedAlong(m, ks) + (if k in m then Crowd(|m[k]|) else 0)
  {
    assert (ks + [k])[..|ks|] == ks;
  }

  /** A key the loop does not visit does not matter to it. */
  lemma {:induction false} AlongIgnores<K, V>(m: map<K, seq<V>>, ks: seq<K>, x: K)
    requires x !in ks
    ensures ExcessAlong(m, ks) == ExcessAlong(m - {x}, ks)
    ensures CrowdedAlong(m, ks) == CrowdedAlong(m - {x}, ks)
    decreases |ks|
  {
    if ks != [] {
      AlongIgnores(m, ks[..|ks| - 1], x);
    }
  }

  /**
   * A loop that visits the keys of `m` one at a time, with `rest` still to
   * visit, has summed the lengths of `m - rest`; visiting `k` adds its length.
   */
  lemma SumLensStep<K, V>(m: map<K, seq<V>>, rest: set<K>, k: K)
    requires k in rest && k in m
    ensures SumLens(m - (rest - {k})) == SumLens(m - rest) + |m[k]|
  {
    var m' := m - (rest - {k});
    SumLensRemove(m', k);
    assert m' - {k} == m - rest;
  }

  /** Visiting every key of `m` once, in any order, counts the whole fold. */
  lemma {:induction false} AlongAll<K, V>(m: map<K, seq<V>>, ks: seq<K>)
    requires forall i, j :: 0 <= i < j < |ks| ==> ks[i] != ks[j]
    requires forall k :: k in ks <==> k in m
    ensures ExcessAlong(m, ks) == SumExcess(m)
    ensures CrowdedAlong(m, ks) == SumCrowded(m)
    decreases |ks|
  {
    if ks == [] {
      assert m == map[];
    } else {
      var init := ks[..|ks| - 1];
      var k := ks[|ks| - 1];
      assert k !in init;
      assert forall x :: x in init <==> x in m - {k} by {
        forall x ensures x in init <==> x in m - {k} {
          if x in init {
            var i :| 0 <= i < |init| && init[i] == x;
            assert ks[i] == x;
            assert x in m;
          }
          if x in m - {k} {
            assert x in ks;
            var i :| 0 <= i < |ks| && ks[i] == x;
            assert i < |init| && init[i] == x;
          }
        }
      }
      AlongAll(m - {k}, init);
      AlongIgnores(m, init, k);
      SumExcessRemove(m, k);
      SumCrowdedRemove(m, k);
    }
  }

  /** When no group has company, nothing is counted. */
  lemma {:induction false} SumCrowdedLonely<K, V>(m: map<K, seq<V>>)
    requires forall k :: k in m ==> |m[k]| <= 1
    ensures SumCrowded(m) == 0
    decreases |m.Keys|
  {
    if m != map[] {
      var k :| k in m;
      SumCrowdedRemove(m, k);
      assert |(m - {k}).Keys| < |m.Keys| by { assert m.Keys - {k} == (m - {k}).Keys; }
      SumCrowdedLonely(m - {k});
    }
  }

  /** When every group has company, every member is counted. */
  lemma {:induction false} SumCrowdedAll<K, V>(m: map<K, seq<V>>)
    requires forall k :: k in m ==> |m[k]| > 1
    ensures SumCrowded(m) == SumLens(m)
    decreases |m.Keys|
  {
    if m != map[] {
      var k :| k in m;
      SumCrowdedRemove(m, k);
      SumLensRemove(m, k);
      assert |(m - {k}).Keys| < |m.Keys| by { assert m.Keys - {k} == (m - {k}).Keys; }
      SumCrowdedAll(m - {k});
    }
  }

  /**
   * When every group is non-empty, the duplicates a map of groups reports
   * are its members minus its groups.
   */
  lemma {:induction false} ExcessIsMembersMinusGroups<K, V>(m: map<K, seq<V>>)
    requires forall k :: k in m ==> |m[k]| > 0
    ensures SumExcess(m) + |m| == SumLens(m)
    decreases |m.Keys|
  {
    if m != map[] {
      var k :| k in m;
      SumExcessRemove(m, k);
      SumLensRemove(m, k);
      assert |(m - {k}).Keys| < |m.Keys| by { assert m.Keys - {k} == (m - {k}).Keys; }
      ExcessIsMembersMinusGroups(m - {k});
      assert |m - {k}| == |m| - 1 by { assert (m - {k}).Keys == m.Keys - {k}; }
    }
  }

  /** Growing one group by one member grows the total length by one. */
  lemma SumLensAppend<K, V>(m: map<K, seq<V>>, k: K, v: V)
    ensures SumLens(m[k := (if k in m then m[k] else []) + [v]]) == SumLens(m) + 1
  {
    var m' := m[k := (if k in m then m[k] else []) + [v]];
    SumLensRemove(m', k);
    assert m' - {k} == m - {k};
    if k in m {
      SumLensRemove(m, k);
    } else {
      assert m - {k} == m;
    }
  }
}
