/**
 * ParseUtil::getParts: expands a part selector into text appended to
 * `outPart`. Quoted text is copied without its quotes, 'E' is the
 * extension, 'N' the name, a run of k '#' the number zero-padded to k + 1
 * digits, and every other character itself. The strings are the contents
 * of the C strings the source receives.
 */
module Template {
  import opened Seqs

  const U32_LIMIT: nat := 0x1_0000_0000
  /** numStr is a char[10]: snprintf keeps at most 9 characters. */
  const NUM_STR_MAX: nat := 9

  predicate IsQuote(c: char)
  {
    c == '\'' || c == '"'
  }

  /** The position of the first q at or after j, or |s|. */
  function NextChar(s: string, j: nat, q: char): (p: nat)
    requires j <= |s|
    ensures j <= p <= |s|
    ensures p < |s| ==> s[p] == q
    decreases |s| - j
  {
    if j == |s| || s[j] == q then j else NextChar(s, j + 1, q)
  }

  lemma {:induction false} NextCharIsFirst(s: string, j: nat, q: char)
    requires j <= |s|
    ensures forall t :: j <= t < NextChar(s, j, q) ==> s[t] != q
    decreases |s| - j
  {
    if j < |s| && s[j] != q {
      NextCharIsFirst(s, j + 1, q);
    }
  }

  /** Every quote opened from position i on is closed: the loop's precondition. */
  predicate WellQuoted(s: string, i: nat)
    requires i <= |s|
    decreases |s| - i
  {
    if i == |s| then true
    else if IsQuote(s[i]) then
      var q := NextChar(s, i + 1, s[i]);
      q < |s| && WellQuoted(s, q + 1)
    else WellQuoted(s, i + 1)
  }

  /** Quote-free text can be stepped over without closing anything. */
  lemma {:induction false} WellQuotedSkip(s: string, i: nat, k: nat)
    requires i + k <= |s|
    requires forall t :: i <= t < i + k ==> !IsQuote(s[t])
    ensures WellQuoted(s, i) <==> WellQuoted(s, i + k)
    decreases k
  {
    if k > 0 {
      WellQuotedSkip(s, i + 1, k - 1);
    }
  }

  /** The number of '#' starting at position i. */
  function HashRun(s: string, i: nat): (k: nat)
    requires i <= |s|
    ensures i + k <= |s|
    ensures i + k < |s| ==> s[i + k] != '#'
    decreases |s| - i
  {
    if i == |s| || s[i] != '#' then 0 else 1 + HashRun(s, i + 1)
  }

  lemma {:induction false} HashRunIsHashes(s: string, i: nat)
    requires i <= |s|
    ensures forall t :: i <= t < i + HashRun(s, i) ==> s[t] == '#'
    decreases |s| - i
  {
    if i < |s| && s[i] == '#' {
      HashRunIsHashes(s, i + 1);
    }
  }

  function DigitChar(d: nat): char
    requires d < 10
  {
    ('0' as int + d) as char
  }

  /** The decimal digits of n, as %u writes them. */
  function Digits(n: nat): (r: string)
    ensures r != [] && forall t :: 0 <= t < |r| ==> '0' <= r[t] <= '9'
  {
    if n < 10 then [DigitChar(n)] else Digits(n / 10) + [DigitChar(n % 10)]
  }

  function Zeros(k: nat): (r: string)
    ensures |r| == k && forall t :: 0 <= t < k ==> r[t] == '0'
  {
    if k == 0 then [] else Zeros(k - 1) + ['0']
  }

  /** snprintf(numStr, 10, "%0<width>u", num): zero-padded, then cut to 9 characters. */
  function NumField(num: nat, width: nat): (r: string)
    ensures |r| <= NUM_STR_MAX
  {
    var d := Digits(num);
    var padded := if |d| < width then Zeros(width - |d|) + d else d;
    if |padded| <= NUM_STR_MAX then padded else padded[..NUM_STR_MAX]
  }

  /** One selector item: the text it yields and where the next item starts. */
  datatype Piece = Piece(text: string, next: nat)

  function Item(sel: string, i: nat, name: string, ext: string, num: nat): (p: Piece)
    requires i < |sel| && WellQuoted(sel, i)
    ensures i < p.next <= |sel| && WellQuoted(sel, p.next)
  {
    var c := sel[i];
    if IsQuote(c) then
      var q := NextChar(sel, i + 1, c);
      Piece(sel[i + 1..q], q + 1)
    else if c == '#' then
      var k := HashRun(sel, i);
      HashRunIsHashes(sel, i);
      WellQuotedSkip(sel, i, k);
      Piece(NumField(num, k + 1), i + k)
    else
      Piece(if c == 'E' then ext else if c == 'N' then name else [c], i + 1)
  }

  /** The expansion of the selector from position i on. */
  function ExpandFrom(sel: string, i: nat, name: string, ext: string, num: nat): string
    requires i <= |sel| && WellQuoted(sel, i)
    decreases |sel| - i
  {
    if i == |sel| then []
    else
      var p := Item(sel, i, name, ext, num);
      p.text + ExpandFrom(sel, p.next, name, ext, num)
  }

  function Expand(sel: string, name: string, ext: string, num: nat): string
    requires WellQuoted(sel, 0)
  {
    ExpandFrom(sel, 0, name, ext, num)
  }

  /** The quote-copying inner loop: the text up to the closing quote, and the position after it. */
  method CopyQuoted(sel: string, i: nat) returns (piece: string, next: nat)
    requires i < |sel| && IsQuote(sel[i]) && WellQuoted(sel, i)
    ensures var q := NextChar(sel, i + 1, sel[i]); piece == sel[i + 1..q] && next == q + 1
  {
    var c := sel[i];
    ghost var q := NextChar(sel, i + 1, c);
    NextCharIsFirst(sel, i + 1, c);
    piece := [];
    var j := i + 1;
    while sel[j] != c
      invariant i + 1 <= j <= q && piece == sel[i + 1..j]
      decreases q - j
    {
      assert sel[i + 1..j + 1] == sel[i + 1..j] + [sel[j]];
      piece := piece + [sel[j]];
      j := j + 1;
    }
    next := j + 1;
  }

  /** The '#'-counting inner loop: the field width (run length + 1) and the position after the run. */
  method CountHashes(sel: string, i: nat) returns (width: nat, next: nat)
    requires i < |sel| && sel[i] == '#'
    ensures width == HashRun(sel, i) + 1 && next == i + HashRun(sel, i)
  {
    width := 1;
    var j := i;
    while j < |sel| && sel[j] == '#'
      invariant i <= j <= |sel| && width == 1 + j - i
      invariant HashRun(sel, i) == (j - i) + HashRun(sel, j)
      decreases |sel| - j
    {
      width := width + 1;
      j := j + 1;
    }
    next := j;
  }

  /** The getParts loop: appends the expansion to outPart. */
  method GetParts(outPart: string, sel: string, name: string, ext: string, num: nat) returns (r: string)
    requires WellQuoted(sel, 0) && num < U32_LIMIT
    ensures r == outPart + Expand(sel, name, ext, num)
  {
    r := outPart;
    var i := 0;
    while i < |sel|
      invariant i <= |sel| && WellQuoted(sel, i)
      invariant outPart + Expand(sel, name, ext, num) == r + ExpandFrom(sel, i, name, ext, num)
      decreases |sel| - i
    {
      var piece, next := GetPart(sel, i, name, ext, num);
      ConcatAssoc(r, piece, ExpandFrom(sel, next, name, ext, num));
      r := r + piece;
      i := next;
    }
  }

  /** One pass of the getParts loop: the text of the item at i, and where the next one starts. */
  method GetPart(sel: string, i: nat, name: string, ext: string, num: nat) returns (piece: string, next: nat)
    requires i < |sel| && WellQuoted(sel, i)
    ensures Item(sel, i, name, ext, num) == Piece(piece, next)
  {
    var c := sel[i];
    if IsQuote(c) {
      piece, next := CopyQuoted(sel, i);
    } else if c == '#' {
      var width;
      width, next := CountHashes(sel, i);
      piece := NumField(num, width);
    } else {
      piece := if c == 'E' then ext else if c == 'N' then name else [c];
      next := i + 1;
    }
  }

  /** Plain text, without quotes, 'E', 'N' or '#', expands to itself. */
  lemma {:induction false} PlainSelector(sel: string, i: nat, name: string, ext: string, num: nat)
    requires i <= |sel|
    requires forall t :: i <= t < |sel| ==> !IsQuote(sel[t]) && sel[t] != 'E' && sel[t] != 'N' && sel[t] != '#'
    ensures WellQuoted(sel, i) && ExpandFrom(sel, i, name, ext, num) == sel[i..]
    decreases |sel| - i
  {
    if i < |sel| {
      PlainSelector(sel, i + 1, name, ext, num);
      assert sel[i..] == [sel[i]] + sel[i + 1..];
    }
  }

  /** Reading a digit string back as a number. */
  function ParseDecimal(ds: string): nat
    requires forall t :: 0 <= t < |ds| ==> '0' <= ds[t] <= '9'
  {
    if ds == [] then 0
    else ParseDecimal(ds[..|ds| - 1]) * 10 + (ds[|ds| - 1] as int - '0' as int)
  }

  lemma {:induction false} ParseDigits(n: nat)
    ensures ParseDecimal(Digits(n)) == n
  {
    if n >= 10 {
      ParseDigits(n / 10);
      var d := Digits(n);
      assert d[..|d| - 1] == Digits(n / 10);
    }
  }

  lemma {:induction false} ParseLeadingZeros(k: nat, d: string)
    requires forall t :: 0 <= t < |d| ==> '0' <= d[t] <= '9'
    ensures ParseDecimal(Zeros(k) + d) == ParseDecimal(d)
    decreases |d|, k
  {
    var z := Zeros(k) + d;
    if d != [] {
      assert z[..|z| - 1] == Zeros(k) + d[..|d| - 1];
      ParseLeadingZeros(k, d[..|d| - 1]);
    } else if k > 0 {
      assert z == Zeros(k - 1) + ['0'];
      assert z[..|z| - 1] == Zeros(k - 1) + [];
      ParseLeadingZeros(k - 1, []);
      assert Zeros(k - 1) + [] == Zeros(k - 1);
    }
  }

  /**
   * When the padded number fits the 9-character buffer, the field is
   * max(width, digits) characters long and reads back as the number.
   */
  lemma NumFieldRoundTrip(num: nat, width: nat)
    requires width <= NUM_STR_MAX && |Digits(num)| <= NUM_STR_MAX
    ensures var r := NumField(num, width);
      |r| == (if width > |Digits(num)| then width else |Digits(num)|)
      && (forall t :: 0 <= t < |r| ==> '0' <= r[t] <= '9')
      && ParseDecimal(r) == num
  {
    var d := Digits(num);
    ParseDigits(num);
    if |d| < width {
      ParseLeadingZeros(width - |d|, d);
    }
  }

  /** A closing quote past |a| is found at the same place in a + b. */
  lemma {:induction false} NextCharShift(a: string, b: string, j: nat, q: char)
    requires j <= |b|
    requires forall t :: 0 <= t < |a| ==> (a + b)[t] == a[t]
    ensures NextChar(a + b, |a| + j, q) == |a| + NextChar(b, j, q)
    decreases |b| - j
  {
    if j < |b| {
      assert (a + b)[|a| + j] == b[j];
      if b[j] != q {
        NextCharShift(a, b, j + 1, q);
      }
    }
  }

  lemma {:induction false} HashRunShift(a: string, b: string, j: nat)
    requires j <= |b|
    ensures HashRun(a + b, |a| + j) == HashRun(b, j)
    decreases |b| - j
  {
    if j < |b| {
      assert (a + b)[|a| + j] == b[j];
      if b[j] == '#' {
        HashRunShift(a, b, j + 1);
      }
    }
  }

  lemma {:induction false} WellQuotedShift(a: string, b: string, j: nat)
    requires j <= |b| && WellQuoted(b, j)
    ensures WellQuoted(a + b, |a| + j)
    decreases |b| - j
  {
    var s := a + b;
    if j < |b| {
      assert s[|a| + j] == b[j];
      if IsQuote(b[j]) {
        NextCharShift(a, b, j + 1, b[j]);
        WellQuotedShift(a, b, NextChar(b, j + 1, b[j]) + 1);
      } else {
        WellQuotedShift(a, b, j + 1);
      }
    }
  }

  lemma ItemShift(a: string, b: string, j: nat, name: string, ext: string, num: nat)
    requires j < |b| && WellQuoted(b, j) && WellQuoted(a + b, |a| + j)
    ensures var p := Item(b, j, name, ext, num);
      Item(a + b, |a| + j, name, ext, num) == Piece(p.text, |a| + p.next)
  {
    var s := a + b;
    assert s[|a| + j] == b[j];
    if IsQuote(b[j]) {
      NextCharShift(a, b, j + 1, b[j]);
      var q := NextChar(b, j + 1, b[j]);
      assert s[|a| + j + 1..|a| + q] == b[j + 1..q];
    } else if b[j] == '#' {
      HashRunShift(a, b, j);
    }
  }

  /** Expanding inside the second half of a + b is expanding b. */
  lemma {:induction false} ExpandShift(a: string, b: string, j: nat, name: string, ext: string, num: nat)
    requires j <= |b| && WellQuoted(b, j)
    ensures WellQuoted(a + b, |a| + j)
    ensures ExpandFrom(a + b, |a| + j, name, ext, num) == ExpandFrom(b, j, name, ext, num)
    decreases |b| - j
  {
    WellQuotedShift(a, b, j);
    if j < |b| {
      var p := Item(b, j, name, ext, num);
      ExpandShift(a, b, p.next, name, ext, num);
      ExpandShiftStep(a, b, j, name, ext, num);
    }
  }

  lemma ExpandShiftStep(a: string, b: string, j: nat, name: string, ext: string, num: nat)
    requires j < |b| && WellQuoted(b, j) && WellQuoted(a + b, |a| + j)
    requires var p := Item(b, j, name, ext, num);
      WellQuoted(a + b, |a| + p.next)
      && ExpandFrom(a + b, |a| + p.next, name, ext, num) == ExpandFrom(b, p.next, name, ext, num)
    ensures ExpandFrom(a + b, |a| + j, name, ext, num) == ExpandFrom(b, j, name, ext, num)
  {
    ItemShift(a, b, j, name, ext, num);
  }

  /** The boundary of a + b does not join two '#' runs. */
  predicate NoHashJoin(a: string, b: string)
  {
    !(a != [] && b != [] && a[|a| - 1] == '#' && b[0] == '#')
  }

  lemma {:induction false} NextCharPrefix(a: string, b: string, j: nat, q: char)
    requires j <= |a| && NextChar(a, j, q) < |a|
    ensures NextChar(a + b, j, q) == NextChar(a, j, q)
    decreases |a| - j
  {
    assert (a + b)[j] == a[j];
    if a[j] != q {
      NextCharPrefix(a, b, j + 1, q);
    }
  }

  lemma {:induction false} HashRunPrefix(a: string, b: string, j: nat)
    requires j <= |a| && NoHashJoin(a, b)
    requires j == |a| ==> b == [] || b[0] != '#'
    ensures HashRun(a + b, j) == HashRun(a, j)
    decreases |a| - j
  {
    if j == |a| {
      if b != [] {
        assert (a + b)[j] == b[0];
      }
    } else {
      assert (a + b)[j] == a[j];
      if a[j] == '#' {
        HashRunPrefix(a, b, j + 1);
      }
    }
  }

  lemma {:induction false} WellQuotedConcat(a: string, b: string, i: nat)
    requires i <= |a| && WellQuoted(a, i) && WellQuoted(b, 0)
    ensures WellQuoted(a + b, i)
    decreases |a| - i
  {
    if i == |a| {
      WellQuotedShift(a, b, 0);
    } else {
      assert (a + b)[i] == a[i];
      if IsQuote(a[i]) {
        NextCharPrefix(a, b, i + 1, a[i]);
        WellQuotedConcat(a, b, NextChar(a, i + 1, a[i]) + 1);
      } else {
        WellQuotedConcat(a, b, i + 1);
      }
    }
  }

  lemma ItemPrefix(a: string, b: string, i: nat, name: string, ext: string, num: nat)
    requires i < |a| && WellQuoted(a, i) && WellQuoted(a + b, i) && NoHashJoin(a, b)
    ensures Item(a + b, i, name, ext, num) == Item(a, i, name, ext, num)
  {
    var s := a + b;
    assert s[i] == a[i];
    if IsQuote(a[i]) {
      NextCharPrefix(a, b, i + 1, a[i]);
      var q := NextChar(a, i + 1, a[i]);
      assert s[i + 1..q] == a[i + 1..q];
    } else if a[i] == '#' {
      HashRunPrefix(a, b, i);
    }
  }

  lemma {:induction false} ExpandConcatFrom(a: string, b: string, i: nat, name: string, ext: string, num: nat)
    requires i <= |a| && WellQuoted(a, i) && WellQuoted(b, 0) && NoHashJoin(a, b)
    ensures WellQuoted(a + b, i)
    ensures ExpandFrom(a + b, i, name, ext, num) == ExpandFrom(a, i, name, ext, num) + Expand(b, name, ext, num)
    decreases |a| - i
  {
    WellQuotedConcat(a, b, i);
    if i == |a| {
      ExpandShift(a, b, 0, name, ext, num);
    } else {
      ItemPrefix(a, b, i, name, ext, num);
      var p := Item(a, i, name, ext, num);
      ExpandConcatFrom(a, b, p.next, name, ext, num);
      assert ExpandFrom(a + b, i, name, ext, num) == p.text + ExpandFrom(a + b, p.next, name, ext, num);
      assert ExpandFrom(a, i, name, ext, num) == p.text + ExpandFrom(a, p.next, name, ext, num);
      ConcatAssoc(p.text, ExpandFrom(a, p.next, name, ext, num), Expand(b, name, ext, num));
    }
  }

  /**
   * The expansion is compositional: a selector can be expanded piece by
   * piece, as long as the cut does not split a run of '#'.
   */
  lemma ExpandConcat(a: string, b: string, name: string, ext: string, num: nat)
    requires WellQuoted(a, 0) && WellQuoted(b, 0) && NoHashJoin(a, b)
    ensures WellQuoted(a + b, 0)
    ensures Expand(a + b, name, ext, num) == Expand(a, name, ext, num) + Expand(b, name, ext, num)
  {
    ExpandConcatFrom(a, b, 0, name, ext, num);
  }

  function HashMarks(k: nat): (r: string)
    ensures |r| == k && forall t :: 0 <= t < k ==> r[t] == '#'
  {
    if k == 0 then [] else HashMarks(k - 1) + ['#']
  }

  /** The single-item selectors, which with ExpandConcat determine every expansion. */
  lemma ExpandItems(x: string, q: char, k: nat, c: char, name: string, ext: string, num: nat)
    requires IsQuote(q) && q !in x && k >= 1
    requires !IsQuote(c) && c != 'E' && c != 'N' && c != '#'
    ensures Expand("E", name, ext, num) == ext
    ensures Expand("N", name, ext, num) == name
    ensures WellQuoted([q] + x + [q], 0) && Expand([q] + x + [q], name, ext, num) == x
    ensures WellQuoted(HashMarks(k), 0) && Expand(HashMarks(k), name, ext, num) == NumField(num, k + 1)
    ensures Expand([c], name, ext, num) == [c]
  {
    var s := [q] + x + [q];
    assert NextChar(s, 1, q) == |x| + 1 by {
      assert forall t :: 1 <= t < |x| + 1 ==> s[t] == x[t - 1];
      NextCharUpTo(s, 1, q);
    }
    assert s[1..|x| + 1] == x;
    assert ExpandFrom(s, 0, name, ext, num) == x + ExpandFrom(s, |s|, name, ext, num);
    var h := HashMarks(k);
    assert HashRun(h, 0) == k by {
      HashRunAll(h, 0);
    }
    HashRunIsHashes(h, 0);
    WellQuotedSkip(h, 0, k);
    assert ExpandFrom(h, 0, name, ext, num) == NumField(num, k + 1) + ExpandFrom(h, k, name, ext, num);
    assert WellQuoted([c], 1);
    assert ExpandFrom([c], 0, name, ext, num) == [c] + ExpandFrom([c], 1, name, ext, num);
  }

  lemma {:induction false} NextCharUpTo(s: string, j: nat, q: char)
    requires j < |s| && s[|s| - 1] == q
    requires forall t :: j <= t < |s| - 1 ==> s[t] != q
    ensures NextChar(s, j, q) == |s| - 1
    decreases |s| - j
  {
    if j < |s| - 1 {
      NextCharUpTo(s, j + 1, q);
    }
  }

  lemma {:induction false} HashRunAll(s: string, j: nat)
    requires j <= |s| && forall t :: j <= t < |s| ==> s[t] == '#'
    ensures HashRun(s, j) == |s| - j
    decreases |s| - j
  {
    if j < |s| {
      HashRunAll(s, j + 1);
    }
  }
}
