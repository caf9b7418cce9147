/**
 * ParseUtil's Split: a vector of the pieces of a string between delimiter
 * characters, with at most `maxSplit` pieces.
 */
module Splitting {
  import opened Seqs

  const INT_MIN: int := -2147483648
  const INT_MAX: int := 2147483647

  /** std::string::find_first_of from `from`; |s| stands for npos. */
  function FirstOf(s: string, delims: string, from: nat): (p: nat)
    requires from <= |s|
    ensures from <= p <= |s|
    ensures p < |s| ==> s[p] in delims
    decreases |s| - from
  {
    if from == |s| || s[from] in delims then from else FirstOf(s, delims, from + 1)
  }

  /** No delimiter is skipped on the way to the first one. */
  lemma {:induction false} FirstOfIsFirst(s: string, delims: string, from: nat)
    requires from <= |s|
    ensures forall t :: from <= t < FirstOf(s, delims, from) ==> s[t] !in delims
    decreases |s| - from
  {
    if from < |s| && s[from] !in delims {
      FirstOfIsFirst(s, delims, from + 1);
    }
  }

  /**
   * The pieces from `start` on when at most `budget` more delimiters may end
   * a piece: a piece ended by a delimiter is kept only if non-empty, and once
   * the budget is spent the whole rest, delimiters included, is the last piece.
   */
  function Chunks(s: string, delims: string, start: nat, budget: nat): seq<string>
    requires start <= |s|
    decreases |s| - start
  {
    var p := FirstOf(s, delims, start);
    if p == |s| || budget == 0 then
      (if start < |s| then [s[start..]] else [])
    else
      (if p != start then [s[start..p]] else []) + Chunks(s, delims, p + 1, budget - 1)
  }

  /**
   * What Split(s, delims, maxSplit) holds. A maxSplit below 1 keeps only the
   * text before the first delimiter (possibly empty), or the whole string.
   */
  function SplitSpec(s: string, delims: string, maxSplit: int): seq<string>
  {
    if maxSplit >= 1 then Chunks(s, delims, 0, maxSplit - 1)
    else if s == [] then []
    else [s[..FirstOf(s, delims, 0)]]
  }

  /** The Split constructor, with its loop. */
  method Split(s: string, delims: string, maxSplit: int) returns (r: seq<string>)
    requires INT_MIN < maxSplit <= INT_MAX
    ensures r == SplitSpec(s, delims, maxSplit)
  {
    r := [];
    var lastPos := 0;
    var pos := FirstOf(s, delims, 0);
    var m := maxSplit;
    while true
      invariant lastPos <= pos <= |s| && pos == FirstOf(s, delims, lastPos)
      invariant maxSplit >= 1 ==> m >= 1 && SplitSpec(s, delims, maxSplit) == r + Chunks(s, delims, lastPos, m - 1)
      invariant maxSplit < 1 ==> m == maxSplit && lastPos == 0 && r == []
      decreases |s| - lastPos
    {
      if pos == |s| {
        break;
      }
      m := m - 1;
      if m <= 0 {
        break;
      }
      var next := pos + 1;
      ChunksNext(s, delims, lastPos, m, pos, next, m - 1);
      if pos != lastPos {
        ConcatAssoc(r, [s[lastPos..pos]], Chunks(s, delims, next, m - 1));
        r := r + [s[lastPos..pos]];
      } else {
        assert [] + Chunks(s, delims, next, m - 1) == Chunks(s, delims, next, m - 1);
      }
      lastPos := next;
      pos := FirstOf(s, delims, lastPos);
    }
    if maxSplit >= 1 {
      ChunksLast(s, delims, lastPos, if pos == |s| then m - 1 else 0);
    }
    if lastPos < |s| {
      r := r + [s[lastPos..if m == 0 then |s| else pos]];
    }
  }

  /** The pieces after one more delimiter. */
  lemma ChunksNext(s: string, delims: string, start: nat, budget: nat, p: nat, q: nat, b: nat)
    requires start <= |s| && p == FirstOf(s, delims, start) && p < |s|
    requires q == p + 1 && budget == b + 1
    ensures Chunks(s, delims, start, budget) == (if p != start then [s[start..p]] else []) + Chunks(s, delims, q, b)
  {
  }

  /** The last piece: the rest of the text. */
  lemma ChunksLast(s: string, delims: string, start: nat, budget: nat)
    requires start <= |s| && (FirstOf(s, delims, start) == |s| || budget == 0)
    ensures Chunks(s, delims, start, budget) == if start < |s| then [s[start..|s|]] else []
  {
    assert s[start..|s|] == s[start..];
  }

  predicate DelimFree(p: string, delims: string)
  {
    forall t :: 0 <= t < |p| ==> p[t] !in delims
  }

  /** The number of delimiter characters from position i on. */
  function DelimCount(s: string, delims: string, i: nat): nat
    requires i <= |s|
    decreases |s| - i
  {
    if i == |s| then 0 else (if s[i] in delims then 1 else 0) + DelimCount(s, delims, i + 1)
  }

  /**
   * Reference definition: the maximal delimiter-free runs of a text, read
   * one character at a time. A delimiter is dropped; any other character
   * starts a run, or joins the run of the character after it.
   */
  function Runs(t: string, delims: string): (r: seq<string>)
    ensures t != [] && t[0] !in delims ==> r != [] && r[0] != [] && r[0][0] == t[0]
    decreases |t|
  {
    if t == [] then []
    else
      var rest := Runs(t[1..], delims);
      if t[0] in delims then rest
      else if |t| > 1 && t[1] !in delims then [[t[0]] + rest[0]] + rest[1..]
      else [[t[0]]] + rest
  }

  /** A run followed by a delimiter (or nothing) is the first run. */
  lemma {:induction false} RunsOfRun(x: string, tail: string, delims: string)
    requires x != [] && DelimFree(x, delims)
    requires tail == [] || tail[0] in delims
    ensures Runs(x + tail, delims) == [x] + Runs(tail, delims)
    decreases |x|
  {
    var t := x + tail;
    if |x| == 1 {
      assert t[0] == x[0] && t[1..] == tail && x == [x[0]];
      assert |t| > 1 ==> t[1] == tail[0];
    } else {
      assert t[1..] == x[1..] + tail;
      RunsOfRun(x[1..], tail, delims);
      assert t[1] == x[1];
      assert [t[0]] + x[1..] == x;
    }
  }

  /** The position just after the next b delimiters. */
  function Skip(s: string, delims: string, start: nat, b: nat): (q: nat)
    requires start <= |s| && b <= DelimCount(s, delims, start)
    ensures start <= q <= |s|
    ensures DelimCount(s, delims, q) == DelimCount(s, delims, start) - b
    decreases b
  {
    if b == 0 then start
    else
      RunBeforeDelim(s, delims, start);
      Skip(s, delims, FirstOf(s, delims, start) + 1, b - 1)
  }

  /** Up to the next delimiter there is nothing to count. */
  lemma {:induction false} RunBeforeDelim(s: string, delims: string, start: nat)
    requires start <= |s|
    ensures DelimCount(s, delims, start) == DelimCount(s, delims, FirstOf(s, delims, start))
    ensures FirstOf(s, delims, start) < |s| ==>
      DelimCount(s, delims, start) == 1 + DelimCount(s, delims, FirstOf(s, delims, start) + 1)
    decreases |s| - start
  {
    var p := FirstOf(s, delims, start);
    if p != start {
      RunBeforeDelim(s, delims, start + 1);
    }
  }

  /** Every piece is non-empty, and there are at most budget + 1 of them. */
  lemma {:induction false} ChunksShape(s: string, delims: string, start: nat, budget: nat)
    requires start <= |s|
    ensures forall k :: 0 <= k < |Chunks(s, delims, start, budget)| ==> Chunks(s, delims, start, budget)[k] != []
    ensures |Chunks(s, delims, start, budget)| <= budget + 1
    decreases |s| - start
  {
    var p := FirstOf(s, delims, start);
    if p < |s| && budget > 0 {
      ChunksShape(s, delims, p + 1, budget - 1);
    }
  }

  /** Every piece but the last is free of delimiters. */
  lemma {:induction false} ChunksDelimFree(s: string, delims: string, start: nat, budget: nat)
    requires start <= |s|
    ensures var c := Chunks(s, delims, start, budget);
      forall k :: 0 <= k < |c| - 1 ==> DelimFree(c[k], delims)
    decreases |s| - start
  {
    var p := FirstOf(s, delims, start);
    FirstOfIsFirst(s, delims, start);
    if p < |s| && budget > 0 {
      ChunksDelimFree(s, delims, p + 1, budget - 1);
      var head: seq<string> := if p != start then [s[start..p]] else [];
      assert Chunks(s, delims, start, budget) == head + Chunks(s, delims, p + 1, budget - 1);
      assert forall k :: 0 <= k < |head| ==> DelimFree(head[k], delims);
    }
  }

  /** When the budget covers every delimiter, the pieces are the maximal runs. */
  lemma {:induction false} ChunksAreRuns(s: string, delims: string, start: nat, budget: nat)
    requires start <= |s| && DelimCount(s, delims, start) <= budget
    ensures Chunks(s, delims, start, budget) == Runs(s[start..], delims)
    decreases |s| - start
  {
    var p := FirstOf(s, delims, start);
    FirstOfIsFirst(s, delims, start);
    RunBeforeDelim(s, delims, start);
    if p == |s| {
      if start < |s| {
        var x := s[start..];
        RunsOfRun(x, [], delims);
        assert x + [] == x;
        assert Runs([], delims) == [];
        assert Chunks(s, delims, start, budget) == [x];
        assert [x] + [] == [x];
      } else {
        assert s[start..] == [];
      }
    } else {
      var b: nat := budget - 1;
      var q := p + 1;
      var rest := Chunks(s, delims, q, b);
      ChunksAreRuns(s, delims, q, b);
      assert s[p..][1..] == s[q..];
      assert Runs(s[p..], delims) == Runs(s[q..], delims);
      assert rest == Runs(s[p..], delims);
      if p == start {
        assert s[start..] == s[p..];
        ChunksNext(s, delims, start, budget, p, q, b);
        assert [] + rest == rest;
      } else {
        var x := s[start..p];
        assert s[start..] == x + s[p..];
        RunsOfRun(x, s[p..], delims);
        ChunksNext(s, delims, start, budget, p, q, b);
      }
    }
  }

  /**
   * When there are more delimiters than the budget, the last piece is the
   * whole text after the budgeted delimiters, and it holds a delimiter.
   */
  lemma {:induction false} ChunksRemainder(s: string, delims: string, start: nat, budget: nat)
    requires start <= |s| && DelimCount(s, delims, start) > budget
    ensures var c := Chunks(s, delims, start, budget);
      var q := Skip(s, delims, start, budget);
      c != [] && c[|c| - 1] == s[q..] && !DelimFree(s[q..], delims)
    decreases budget
  {
    var p := FirstOf(s, delims, start);
    RunBeforeDelim(s, delims, start);
    if budget == 0 {
      assert p < |s|;
      assert s[start..][p - start] == s[p];
    } else {
      ChunksRemainder(s, delims, p + 1, budget - 1);
    }
  }

  /**
   * Split lives up to its name: non-empty pieces, at most maxSplit of them;
   * the maximal runs when the limit is not reached; otherwise the whole
   * remainder as the last piece.
   */
  lemma SplitProperties(s: string, delims: string, maxSplit: int)
    requires maxSplit >= 1
    ensures var r := SplitSpec(s, delims, maxSplit);
      |r| <= maxSplit
      && (forall k :: 0 <= k < |r| ==> r[k] != [])
      && (forall k :: 0 <= k < |r| - 1 ==> DelimFree(r[k], delims))
    ensures DelimCount(s, delims, 0) < maxSplit ==> SplitSpec(s, delims, maxSplit) == Runs(s, delims)
    ensures DelimCount(s, delims, 0) >= maxSplit ==>
      var r := SplitSpec(s, delims, maxSplit);
      r != [] && r[|r| - 1] == s[Skip(s, delims, 0, maxSplit - 1)..]
  {
    ChunksShape(s, delims, 0, maxSplit - 1);
    ChunksDelimFree(s, delims, 0, maxSplit - 1);
    if DelimCount(s, delims, 0) < maxSplit {
      ChunksAreRuns(s, delims, 0, maxSplit - 1);
      assert s[0..] == s;
    } else {
      ChunksRemainder(s, delims, 0, maxSplit - 1);
    }
  }

  /** A string without delimiters is one piece (none if empty), whatever the limit. */
  lemma NoDelimOnePiece(s: string, delims: string, maxSplit: int)
    requires DelimFree(s, delims)
    ensures SplitSpec(s, delims, maxSplit) == if s == [] then [] else [s]
  {
    assert s[..|s|] == s;
  }

  /** The option splitter's case: "-a=" split at '=' into at most 2 pieces. */
  lemma SplitExamples()
    ensures SplitSpec("-a=", "=", 2) == ["-a"]
    ensures SplitSpec("a=b=c", "=", 2) == ["a", "b=c"]
    ensures SplitSpec("a==b", "=", INT_MAX) == ["a", "b"]
    ensures SplitSpec("=a", "=", 0) == [""]
  {
    assert FirstOf("-a=", "=", 0) == 2;
    assert "-a="[0..2] == "-a";
    assert FirstOf("a=b=c", "=", 0) == 1;
    assert "a=b=c"[0..1] == "a";
    assert "a=b=c"[2..] == "b=c";
    assert FirstOf("a==b", "=", 0) == 1;
    assert FirstOf("a==b", "=", 2) == 2;
    assert FirstOf("a==b", "=", 3) == 4;
    assert "a==b"[0..1] == "a";
    assert "a==b"[3..] == "b";
    assert FirstOf("=a", "=", 0) == 0;
  }
}
