/**
 * A std::map<K, std::vector<V>> filled by `m[key].push_back(value)`: the
 * result of a sequence of such pushes, in order.
 */
module Buckets {
  import opened Folds

  /** `m[k]` as operator[] reads it: an absent key holds the empty vector. */
  function Get<K, V>(m: map<K, seq<V>>, k: K): seq<V>
  {
    if k in m then m[k] else []
  }

  /** The map after pushing the values of `s` under their keys, first to last. */
  function Group<K, V>(s: seq<(K, V)>): map<K, seq<V>>
    decreases |s|
  {
    if s == [] then map[]
    else
      var m := Group(s[..|s| - 1]);
      var x := s[|s| - 1];
      m[x.0 := Get(m, x.0) + [x.1]]
  }

  lemma GroupSnoc<K, V>(s: seq<(K, V)>, k: K, v: V)
    ensures Group(s + [(k, v)]) == Group(s)[k := Get(Group(s), k) + [v]]
  {
    assert (s + [(k, v)])[..|s|] == s;
  }

  /** Every push lands in exactly one bucket: the buckets together hold |s| values. */
  lemma {:induction false} GroupCount<K, V>(s: seq<(K, V)>)
    ensures SumLens(Group(s)) == |s|
    decreases |s|
  {
    if s != [] {
      var init := s[..|s| - 1];
      GroupCount(init);
      SumLensAppend(Group(init), s[|s| - 1].0, s[|s| - 1].1);
    }
  }

  /** A value is in a bucket exactly when it was pushed under that key; no bucket is empty. */
  lemma {:induction false} GroupMembers<K, V>(s: seq<(K, V)>, k: K, v: V)
    ensures v in Get(Group(s), k) <==> (k, v) in s
    ensures k in Group(s) ==> |Group(s)[k]| > 0
    ensures k in Group(s) <==> exists i :: 0 <= i < |s| && s[i].0 == k
    decreases |s|
  {
    if s != [] {
      var init := s[..|s| - 1];
      GroupMembers(init, k, v);
      assert s == init + [s[|s| - 1]];
      if k in Group(s) && k !in Group(init) {
        assert s[|s| - 1].0 == k;
      }
      if k in Group(init) {
        var i :| 0 <= i < |init| && init[i].0 == k;
        assert s[i].0 == k;
      }
      if exists i :: 0 <= i < |s| && s[i].0 == k {
        var i :| 0 <= i < |s| && s[i].0 == k;
        if i < |init| { assert init[i].0 == k; }
      }
    }
  }

  /** How many pushes of `s` went under `k`. */
  function KeyCount<K(==), V>(s: seq<(K, V)>, k: K): (r: nat)
    ensures r <= |s|
    decreases |s|
  {
    if s == [] then 0
    else KeyCount(s[..|s| - 1], k) + (if s[|s| - 1].0 == k then 1 else 0)
  }

  lemma KeyCountSnoc<K, V>(s: seq<(K, V)>, x: (K, V), k: K)
    ensures KeyCount(s + [x], k) == KeyCount(s, k) + (if x.0 == k then 1 else 0)
  {
    assert (s + [x])[..|s|] == s;
  }

  /** A bucket holds one value per push under its key. */
  lemma {:induction false} GroupBucketLen<K, V>(s: seq<(K, V)>, k: K)
    ensures |Get(Group(s), k)| == KeyCount(s, k)
    decreases |s|
  {
    if s != [] {
      GroupBucketLen(s[..|s| - 1], k);
    }
  }

  /** A std::map<HashValue, unsigned> filled by `m[h] = m[h] + 1` for each `h` of `hs`. */
  function Tally(hs: seq<nat>): map<nat, nat>
    decreases |hs|
  {
    if hs == [] then map[]
    else
      var m := Tally(hs[..|hs| - 1]);
      var h := hs[|hs| - 1];
      m[h := (if h in m then m[h] else 0) + 1]
  }

  /** The tally of a value is the number of times it occurs. */
  lemma {:induction false} TallyCounts(hs: seq<nat>, h: nat)
    ensures h in Tally(hs) <==> h in hs
    ensures h in Tally(hs) ==> Tally(hs)[h] == multiset(hs)[h]
    decreases |hs|
  {
    if hs != [] {
      var init := hs[..|hs| - 1];
      TallyCounts(init, h);
      assert hs == init + [hs[|hs| - 1]];
    }
  }

  /** One more tallied value: its count goes up by one. */
  lemma TallyPrefix(hs: seq<nat>, i: nat)
    requires i < |hs|
    ensures var m := Tally(hs[..i]);
      Tally(hs[..i + 1]) == m[hs[i] := (if hs[i] in m then m[hs[i]] else 0) + 1]
  {
    assert hs[..i + 1][..i] == hs[..i];
  }
}
