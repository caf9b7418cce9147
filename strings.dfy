/**
 * Case-insensitive comparison of C strings, as done by strncasecmp in the
 * C locale: only the letters A-Z fold to lower case. A `string` here is the
 * text before the terminating NUL.
 */
module Strings {

  function Lower(c: char): (r: char)
    ensures 'A' <= c <= 'Z' ==> r as int == c as int + 32
    ensures !('A' <= c <= 'Z') ==> r == c
  {
    if 'A' <= c <= 'Z' then (c as int + 32) as char else c
  }

  /**
   * strncasecmp(a, b, n) == 0: the first n positions agree after folding,
   * where running off the end of one string agrees only with running off the
   * end of the other (the two NUL terminators).
   */
  predicate NCaseEq(a: string, b: string, n: nat)
    decreases n
  {
    n == 0
    || (a == [] && b == [])
    || (a != [] && b != [] && Lower(a[0]) == Lower(b[0]) && NCaseEq(a[1..], b[1..], n - 1))
  }

  /** `p` is a prefix of `s` up to case. */
  predicate PrefixCI(p: string, s: string)
  {
    |p| <= |s| && forall i :: 0 <= i < |p| ==> Lower(p[i]) == Lower(s[i])
  }

  function Min(a: nat, b: nat): nat
  {
    if a < b then a else b
  }

  /** The abbreviated-option test: strncasecmp over the shorter length. */
  predicate OptionMatches(valid: string, possible: string)
  {
    NCaseEq(valid, possible, Min(|valid|, |possible|))
  }

  /**
   * Comparing up to the length of the shorter string succeeds exactly when
   * the shorter one is a prefix, up to case, of the longer one.
   */
  lemma {:induction false} NCaseEqShorter(a: string, b: string)
    ensures NCaseEq(a, b, Min(|a|, |b|)) <==> (PrefixCI(a, b) || PrefixCI(b, a))
    decreases |a|
  {
    if a != [] && b != [] {
      NCaseEqShorter(a[1..], b[1..]);
      assert Min(|a|, |b|) - 1 == Min(|a[1..]|, |b[1..]|);
      if PrefixCI(a, b) {
        assert PrefixCI(a[1..], b[1..]) by {
          forall i | 0 <= i < |a[1..]| ensures Lower(a[1..][i]) == Lower(b[1..][i]) {
            assert a[1..][i] == a[i + 1] && b[1..][i] == b[i + 1];
          }
        }
      }
      if PrefixCI(b, a) {
        assert PrefixCI(b[1..], a[1..]) by {
          forall i | 0 <= i < |b[1..]| ensures Lower(b[1..][i]) == Lower(a[1..][i]) {
            assert a[1..][i] == a[i + 1] && b[1..][i] == b[i + 1];
          }
        }
      }
      if Lower(a[0]) == Lower(b[0]) && PrefixCI(a[1..], b[1..]) {
        forall i | 0 <= i < |a| ensures Lower(a[i]) == Lower(b[i]) {
          if i > 0 { assert a[1..][i - 1] == a[i] && b[1..][i - 1] == b[i]; }
        }
      }
      if Lower(a[0]) == Lower(b[0]) && PrefixCI(b[1..], a[1..]) {
        forall i | 0 <= i < |b| ensures Lower(b[i]) == Lower(a[i]) {
          if i > 0 { assert a[1..][i - 1] == a[i] && b[1..][i - 1] == b[i]; }
        }
      }
    }
  }

  /**
   * Comparing up to the full length of `a` succeeds exactly when `a` is a
   * prefix, up to case, of `b` (a longer `a` meets the NUL of `b`).
   */
  lemma {:induction false} NCaseEqWhole(a: string, b: string)
    ensures NCaseEq(a, b, |a|) <==> PrefixCI(a, b)
    decreases |a|
  {
    if a != [] {
      if b == [] {
        assert !PrefixCI(a, b);
      } else {
        NCaseEqWhole(a[1..], b[1..]);
        if PrefixCI(a, b) {
          assert PrefixCI(a[1..], b[1..]) by {
            forall i | 0 <= i < |a[1..]| ensures Lower(a[1..][i]) == Lower(b[1..][i]) {
              assert a[1..][i] == a[i + 1] && b[1..][i] == b[i + 1];
            }
          }
        }
        if Lower(a[0]) == Lower(b[0]) && PrefixCI(a[1..], b[1..]) {
          forall i | 0 <= i < |a| ensures Lower(a[i]) == Lower(b[i]) {
            if i > 0 { assert a[1..][i - 1] == a[i] && b[1..][i - 1] == b[i]; }
          }
        }
      }
    }
  }
}
