/**
 * The key orders of std::set<std::string>, std::map<std::string, ...> and
 * std::map<uint64_t, ...>: strings compare lexicographically by character
 * code, numbers numerically. Iterating such a container visits its least
 * key first; `LeastString` and `LeastNat` name that key.
 */
module Ordering {
  import opened Seqs

  /** `a` is not after `b` in std::string order. */
  predicate LexLe(a: string, b: string)
    decreases |a|
  {
    a == [] || (b != [] && (a[0] < b[0] || (a[0] == b[0] && LexLe(a[1..], b[1..]))))
  }

  lemma {:induction false} LexLeTotal(a: string, b: string)
    ensures LexLe(a, b) || LexLe(b, a)
    decreases |a|
  {
    if a != [] && b != [] && a[0] == b[0] {
      LexLeTotal(a[1..], b[1..]);
    }
  }

  lemma {:induction false} LexLeReflexive(a: string)
    ensures LexLe(a, a)
    decreases |a|
  {
    if a != [] {
      LexLeReflexive(a[1..]);
    }
  }

  lemma {:induction false} LexLeAntisymmetric(a: string, b: string)
    requires LexLe(a, b) && LexLe(b, a)
    ensures a == b
    decreases |a|
  {
    if a != [] && b != [] {
      LexLeAntisymmetric(a[1..], b[1..]);
      assert a == [a[0]] + a[1..] && b == [b[0]] + b[1..];
    }
  }

  lemma {:induction false} LexLeTransitive(a: string, b: string, c: string)
    requires LexLe(a, b) && LexLe(b, c)
    ensures LexLe(a, c)
    decreases |a|
  {
    if a != [] && b != [] && c != [] && a[0] == b[0] && b[0] == c[0] {
      LexLeTransitive(a[1..], b[1..], c[1..]);
    }
  }

  /** `k` is the first key of `s` in std::string order. */
  predicate IsLeastString(k: string, s: set<string>)
  {
    k in s && forall j :: j in s ==> LexLe(k, j)
  }

  lemma {:induction false} LeastStringExists(s: set<string>)
    requires s != {}
    ensures exists k :: IsLeastString(k, s)
    decreases |s|
  {
    var x :| x in s;
    if s - {x} == {} {
      assert s == {x};
      LexLeReflexive(x);
      assert IsLeastString(x, s);
    } else {
      LeastStringExists(s - {x});
      var k :| IsLeastString(k, s - {x});
      LexLeTotal(x, k);
      if LexLe(x, k) {
        forall j | j in s ensures LexLe(x, j) {
          if j == x { LexLeReflexive(x); } else { assert j in s - {x}; LexLeTransitive(x, k, j); }
        }
        assert IsLeastString(x, s);
      } else {
        forall j | j in s ensures LexLe(k, j) {
          if j != x { assert j in s - {x}; }
        }
        assert IsLeastString(k, s);
      }
    }
  }

  /** There is one first key. */
  lemma LeastStringUnique(a: string, b: string, s: set<string>)
    requires IsLeastString(a, s) && IsLeastString(b, s)
    ensures a == b
  {
    LexLeAntisymmetric(a, b);
  }

  ghost function LeastString(s: set<string>): (k: string)
    requires s != {}
    ensures IsLeastString(k, s)
  {
    LeastStringExists(s);
    var k :| IsLeastString(k, s);
    k
  }

  /** `k` is the least number of `s`. */
  predicate IsLeastNat(k: nat, s: set<nat>)
  {
    k in s && forall j :: j in s ==> k <= j
  }

  lemma {:induction false} LeastNatExists(s: set<nat>)
    requires s != {}
    ensures exists k :: IsLeastNat(k, s)
    decreases |s|
  {
    var x :| x in s;
    if s - {x} == {} {
      forall j | j in s ensures j == x {
        assert j !in s - {x};
      }
      assert IsLeastNat(x, s);
    } else {
      LeastNatExists(s - {x});
      var k :| IsLeastNat(k, s - {x});
      forall j | j in s && j != x ensures k <= j {
        assert j in s - {x};
      }
      if x <= k {
        assert IsLeastNat(x, s);
      } else {
        assert IsLeastNat(k, s);
      }
    }
  }

  ghost function LeastNat(s: set<nat>): (k: nat)
    requires s != {}
    ensures IsLeastNat(k, s)
  {
    LeastNatExists(s);
    var k :| IsLeastNat(k, s);
    k
  }

  /** The keys of a std::set<std::string> or std::map<std::string, ...> in iteration order. */
  ghost function SortedStrings(s: set<string>): (r: seq<string>)
    ensures |r| == |s|
    ensures forall k :: k in r <==> k in s
    decreases |s|
  {
    if s == {} then []
    else
      var k := LeastString(s);
      [k] + SortedStrings(s - {k})
  }

  /** Iteration visits the least key, then the keys after it. */
  lemma SortedStringsStep(s: set<string>, k: string)
    requires IsLeastString(k, s)
    ensures SortedStrings(s) == [k] + SortedStrings(s - {k})
  {
    LeastStringUnique(k, LeastString(s), s);
  }

  /** The keys of a std::map<uint64_t, ...> in iteration order. */
  ghost function SortedNats(s: set<nat>): (r: seq<nat>)
    ensures |r| == |s|
    ensures forall k :: k in r <==> k in s
    decreases |s|
  {
    if s == {} then []
    else
      var k := LeastNat(s);
      [k] + SortedNats(s - {k})
  }

  lemma SortedNatsStep(s: set<nat>, k: nat)
    requires IsLeastNat(k, s)
    ensures SortedNats(s) == [k] + SortedNats(s - {k})
  {
  }

  /**
   * One step of iterating a std::set<std::string> (or the keys of a
   * std::map<std::string, ...>): having visited `done`, with `rest` still to
   * go, the next key is in `rest` and is visited next.
   */
  method NextString(ghost all: set<string>, ghost done: seq<string>, rest: set<string>) returns (k: string)
    requires rest != {} && SortedStrings(all) == done + SortedStrings(rest)
    ensures k in rest && SortedStrings(all) == (done + [k]) + SortedStrings(rest - {k})
  {
    LeastStringExists(rest);
    k :| k in rest && IsLeastString(k, rest);
    SortedStringsStep(rest, k);
    ConcatAssoc(done, [k], SortedStrings(rest - {k}));
  }

  /** Once no key is left, the keys visited are all of them, in order. */
  lemma StringsDone(all: set<string>, done: seq<string>)
    requires SortedStrings(all) == done + SortedStrings({})
    ensures done == SortedStrings(all)
  {
    assert done + [] == done;
  }

  /** One step of iterating the keys of a std::map<uint64_t, ...>. */
  method NextNat(ghost all: set<nat>, ghost done: seq<nat>, rest: set<nat>) returns (k: nat)
    requires rest != {} && SortedNats(all) == done + SortedNats(rest)
    ensures k in rest && SortedNats(all) == (done + [k]) + SortedNats(rest - {k})
  {
    LeastNatExists(rest);
    k :| k in rest && IsLeastNat(k, rest);
    SortedNatsStep(rest, k);
    ConcatAssoc(done, [k], SortedNats(rest - {k}));
  }

  lemma NatsDone(all: set<nat>, done: seq<nat>)
    requires SortedNats(all) == done + SortedNats({})
    ensures done == SortedNats(all)
  {
    assert done + [] == done;
  }

  /** The iteration order visits each key once. */
  lemma {:induction false} SortedStringsDistinct(s: set<string>)
    ensures forall i, j :: 0 <= i < j < |SortedStrings(s)| ==> SortedStrings(s)[i] != SortedStrings(s)[j]
    decreases |s|
  {
    if s != {} {
      var k := LeastString(s);
      var tail := SortedStrings(s - {k});
      SortedStringsDistinct(s - {k});
      assert Distinct(tail);
      assert k !in tail;
      ConsDistinct(k, tail);
      assert SortedStrings(s) == [k] + tail;
    }
  }

  lemma {:induction false} SortedNatsDistinct(s: set<nat>)
    ensures forall i, j :: 0 <= i < j < |SortedNats(s)| ==> SortedNats(s)[i] != SortedNats(s)[j]
    decreases |s|
  {
    if s != {} {
      var k := LeastNat(s);
      var tail := SortedNats(s - {k});
      SortedNatsDistinct(s - {k});
      assert Distinct(tail);
      assert k !in tail;
      ConsDistinct(k, tail);
      assert SortedNats(s) == [k] + tail;
    }
  }
}
