// Sequence facts shared by the other modules.

module Seqs {
  /**
   * Concatenation is associative. Stated once for any element type, it is
   * cheaper to use than to re-prove on sequences of strings, whose elements
   * are themselves sequences.
   */
  lemma ConcatAssoc<T>(a: seq<T>, b: seq<T>, c: seq<T>)
    ensures a + (b + c) == (a + b) + c
  {
  }

  /** No element occurs twice. */
  predicate Distinct<T(==)>(xs: seq<T>)
  {
    forall i, j :: 0 <= i < j < |xs| ==> xs[i] != xs[j]
  }

  /** A new element in front keeps a sequence free of repeats. */
  lemma ConsDistinct<T>(k: T, xs: seq<T>)
    requires k !in xs && Distinct(xs)
    ensures Distinct([k] + xs)
  {
    var r := [k] + xs;
    forall i, j | 0 <= i < j < |r| ensures r[i] != r[j] {
      assert r[j] == xs[j - 1];
      if i > 0 {
        assert r[i] == xs[i - 1];
      }
    }
  }

  /** A sequence that agrees with `b` and then ends in `x` is `b + [x]`. */
  lemma SnocEq<T>(a: seq<T>, b: seq<T>, x: T)
    requires |a| == |b| + 1 && a[|b|] == x
    requires forall j :: 0 <= j < |b| ==> a[j] == b[j]
    ensures a == b + [x]
  {
  }
}
