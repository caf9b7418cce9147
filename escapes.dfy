/**
 * ParseUtil::convertSpecialChar: rewrites C-style escape sequences into the
 * characters they denote, in place, over a NUL-terminated buffer. Characters
 * stand for the bytes of the buffer.
 */
module Escapes {
  import opened Wrappers

  const NUL: char := 0 as char
  const BACKSLASH: char := '\\'

  /** The one-character escapes and what they denote. */
  function SimpleEscape(e: char): (r: Option<char>)
    ensures r.Some? ==> e != 'x' && !('0' <= e <= '7') && e != NUL
  {
    match e
    case 'n' => Some(10 as char)
    case 't' => Some(9 as char)
    case 'v' => Some(11 as char)
    case 'b' => Some(8 as char)
    case 'r' => Some(13 as char)
    case 'f' => Some(12 as char)
    case 'a' => Some(7 as char)
    case '\\' => Some('\\')
    case '?' => Some('?')
    case '\'' => Some('\'')
    case '"' => Some('"')
    case _ => None
  }

  /** The two number bases an escape can use: octal (%o) and hexadecimal (%x). */
  type Base = b: nat | b == 8 || b == 16 witness 8

  /** The value of a digit in the given base, as sscanf's %o and %x read it. */
  function Digit(c: char, base: Base): (r: Option<nat>)
    ensures r.Some? ==> r.value < base
  {
    if '0' <= c <= '7' then Some(c as nat - '0' as nat)
    else if base == 16 && '8' <= c <= '9' then Some(c as nat - '0' as nat)
    else if base == 16 && 'a' <= c <= 'f' then Some(c as nat - 'a' as nat + 10)
    else if base == 16 && 'A' <= c <= 'F' then Some(c as nat - 'A' as nat + 10)
    else None
  }

  /** How many digits, at most `cap`, start at position j. */
  function DigitRun(s: string, j: nat, cap: nat, base: Base): (k: nat)
    requires j <= |s|
    ensures k <= cap && j + k <= |s|
    ensures forall t :: j <= t < j + k ==> Digit(s[t], base).Some?
    ensures k < cap && j + k < |s| ==> Digit(s[j + k], base).None?
    decreases cap
  {
    if cap == 0 || j == |s| || Digit(s[j], base).None? then 0
    else 1 + DigitRun(s, j + 1, cap - 1, base)
  }

  /** The number a digit string denotes, read left to right. */
  function Value(ds: string, base: Base): nat
    requires forall t :: 0 <= t < |ds| ==> Digit(ds[t], base).Some?
  {
    if ds == [] then 0
    else Value(ds[..|ds| - 1], base) * base + Digit(ds[|ds| - 1], base).value
  }

  /** The value of the digit run at position j. */
  function RunValue(s: string, j: nat, cap: nat, base: Base): nat
    requires j <= |s|
  {
    Value(s[j..j + DigitRun(s, j, cap, base)], base)
  }

  /** The byte a `(char)x` cast keeps: the low eight bits, of the two's complement when x is negative. */
  function ByteChar(x: int): char
  {
    (x % 256) as char
  }

  /** The white space sscanf skips before a numeric field (C's isspace). */
  predicate IsSpace(c: char)
  {
    c == ' ' || '\t' <= c <= '\r'
  }

  /** How many white-space characters start at position j. */
  function SpaceRun(s: string, j: nat): (k: nat)
    requires j <= |s|
    ensures j + k <= |s|
    ensures j + k < |s| ==> !IsSpace(s[j + k])
    decreases |s| - j
  {
    if j == |s| || !IsSpace(s[j]) then 0 else 1 + SpaceRun(s, j + 1)
  }

  /** The sign %x accepts at the start of its field; it counts toward the field width. */
  predicate IsSign(c: char)
  {
    c == '+' || c == '-'
  }

  /** The value kept of a field read with a sign: the digits' value, negated after a '-'. */
  function Signed(neg: bool, v: nat): int
  {
    if neg then -(v as int) else v
  }

  datatype Unit = Emit(c: char, next: nat) | Bad

  /**
   * The "\x" escape at position i, read by %2x%n after the 'x': white space
   * is skipped and counted, then comes the field.
   */
  function HexEscape(s: string, i: nat): (u: Unit)
    requires i + 2 <= |s|
    ensures u.Emit? ==> i + 2 < u.next <= |s|
  {
    HexField(s, i + 2 + SpaceRun(s, i + 2))
  }

  /**
   * The %2x field at position j: a sign and at most two characters in all.
   * Without a digit the count is never stored: an unrecognised escape.
   */
  function HexField(s: string, j: nat): (u: Unit)
    requires j <= |s|
    ensures u.Emit? ==> j < u.next <= |s|
  {
    var sg: nat := if j < |s| && IsSign(s[j]) then 1 else 0;
    var k := DigitRun(s, j + sg, 2 - sg, 16);
    if k == 0 then Bad
    else Emit(ByteChar(Signed(sg == 1 && s[j] == '-', RunValue(s, j + sg, 2 - sg, 16))), j + sg + k)
  }

  /** One decoding step at position i: the character written and where reading resumes. */
  function Step(s: string, i: nat): (u: Unit)
    requires i < |s|
    ensures u.Emit? ==> i < u.next <= |s|
    ensures u.Emit? && s[i] == BACKSLASH ==> i + 2 <= u.next
    ensures s[i] != BACKSLASH ==> u == Emit(s[i], i + 1)
  {
    if s[i] != BACKSLASH then Emit(s[i], i + 1)
    else if i + 1 == |s| then Bad
    else
      var e := s[i + 1];
      if SimpleEscape(e).Some? then Emit(SimpleEscape(e).value, i + 2)
      else if '0' <= e <= '7' then
        var k := DigitRun(s, i + 1, 3, 8);
        Emit(ByteChar(RunValue(s, i + 1, 3, 8)), i + 1 + k)
      else if e == 'x' then HexEscape(s, i)
      else Bad
  }

  /** The outcome of decoding: the text, or the position of the first bad escape and what was written before it. */
  datatype Decoded = Done(out: string) | BadEscape(at: nat, partial: string)

  function Prepend(p: string, d: Decoded): Decoded
  {
    match d
    case Done(o) => Done(p + o)
    case BadEscape(at, q) => BadEscape(at, p + q)
  }

  function DecodeFrom(s: string, i: nat): Decoded
    requires i <= |s|
    decreases |s| - i
  {
    if i == |s| then Done([])
    else match Step(s, i)
      case Bad => BadEscape(i, [])
      case Emit(c, next) => Prepend([c], DecodeFrom(s, next))
  }

  function Decode(s: string): Decoded
  {
    DecodeFrom(s, 0)
  }

  lemma PrependPrepend(p: string, q: string, d: Decoded)
    ensures Prepend(p, Prepend(q, d)) == Prepend(p + q, d)
  {
    match d
    case Done(o) => assert p + (q + o) == (p + q) + o;
    case BadEscape(at, r) => assert p + (q + r) == (p + q) + r;
  }

  predicate HasBackslash(s: string)
  {
    exists t :: 0 <= t < |s| && s[t] == BACKSLASH
  }

  /** Decoding never lengthens the text, and keeps its length exactly when there is no escape. */
  lemma {:induction false} DecodeFromLength(s: string, i: nat)
    requires i <= |s|
    ensures DecodeFrom(s, i).Done? ==> |DecodeFrom(s, i).out| <= |s| - i
    ensures DecodeFrom(s, i).Done? ==>
      (|DecodeFrom(s, i).out| == |s| - i <==> !HasBackslash(s[i..]))
    decreases |s| - i
  {
    if i < |s| {
      match Step(s, i)
      case Bad =>
      case Emit(c, next) =>
        DecodeFromLength(s, next);
        if DecodeFrom(s, i).Done? {
          if s[i] == BACKSLASH {
            assert s[i..][0] == BACKSLASH;
          } else {
            assert s[i..] == [s[i]] + s[next..];
            if HasBackslash(s[next..]) {
              var t :| 0 <= t < |s[next..]| && s[next..][t] == BACKSLASH;
              assert s[i..][t + 1] == BACKSLASH;
            }
            if HasBackslash(s[i..]) {
              var t :| 0 <= t < |s[i..]| && s[i..][t] == BACKSLASH;
              assert s[next..][t - 1] == BACKSLASH;
            }
          }
        }
    }
  }

  lemma DecodeLength(s: string)
    ensures Decode(s).Done? ==> |Decode(s).out| <= |s|
    ensures Decode(s).Done? ==> (|Decode(s).out| == |s| <==> !HasBackslash(s))
  {
    DecodeFromLength(s, 0);
    assert s[0..] == s;
  }

  /** Text without a backslash decodes to itself. */
  lemma {:induction false} PlainTextUnchanged(s: string, i: nat)
    requires i <= |s|
    requires forall t :: i <= t < |s| ==> s[t] != BACKSLASH
    ensures DecodeFrom(s, i) == Done(s[i..])
    decreases |s| - i
  {
    if i < |s| {
      PlainTextUnchanged(s, i + 1);
      assert s[i..] == [s[i]] + s[i + 1..];
    }
  }

  /** A character escape between plain characters. */
  lemma EscapeExamples()
    ensures Decode("a\\tb") == Done("a\tb")
    ensures Decode("ab\\") == BadEscape(2, "ab")
    ensures Decode("\\q") == BadEscape(0, [])
  {
    assert "a\\tb"[1..] == "\\tb";
    assert Decode("a\\tb") == Prepend("a", DecodeFrom("a\\tb", 1));
    assert DecodeFrom("ab\\", 1) == Prepend("b", DecodeFrom("ab\\", 2));
  }

  /** An octal escape of three digits. */
  lemma OctalExample()
    ensures Decode("\\101") == Done("A")
  {
    assert DigitRun("\\101", 1, 3, 8) == 3;
    assert "\\101"[1..4] == "101";
    assert Value("101", 8) == 65 by {
      assert "101"[..2] == "10";
      assert "10"[..1] == "1";
      assert "1"[..0] == "";
    }
  }

  /** An octal escape reads at most three digits: a fourth is a plain character. */
  lemma OctalCapExample()
    ensures Decode("\\0412") == Done("!2")
  {
    assert DigitRun("\\0412", 1, 3, 8) == 3;
    assert "\\0412"[1..4] == "041";
    assert Value("041", 8) == 33 by {
      assert "041"[..2] == "04";
      assert "04"[..1] == "0";
      assert "0"[..0] == "";
    }
  }

  /** An octal value past a byte is cut to its low eight bits. */
  lemma OctalWrapExample()
    ensures Decode("\\777") == Done([255 as char])
  {
    assert DigitRun("\\777", 1, 3, 8) == 3;
    assert "\\777"[1..4] == "777";
    assert Value("777", 8) == 511 by {
      assert "777"[..2] == "77";
      assert "77"[..1] == "7";
      assert "7"[..0] == "";
    }
  }

  /** A hex escape reads at most two digits. */
  lemma HexExamples()
    ensures Decode("\\x41g") == Done("Ag")
  {
    var s := "\\x41g";
    assert SpaceRun(s, 2) == 0;
    assert DigitRun(s, 2, 2, 16) == 2;
    assert s[2..4] == "41";
    assert Value("41", 16) == 65 by {
      assert "41"[..1] == "4";
      assert "4"[..0] == "";
    }
    RunValueOf(s, 2, 2, 16, 2);
    HexFieldOf(s, 2, false, 0, 2, 65);
    assert HexEscape(s, 0) == Emit('A', 4);
    assert DecodeFrom(s, 4) == Done("g");
  }

  /** A hex escape needs at least one digit. */
  lemma HexNoDigitExample()
    ensures Decode("\\xg") == BadEscape(0, [])
  {
    var s := "\\xg";
    assert SpaceRun(s, 2) == 0;
    assert DigitRun(s, 2, 2, 16) == 0;
    HexFieldOf(s, 2, false, 0, 0, RunValue(s, 2, 2, 16));
    assert HexEscape(s, 0) == Bad;
  }

  /** %x skips white space before its field, and %n counts it. */
  lemma HexSpaceExample()
    ensures Decode("\\x 41") == Done("A")
  {
    var s := "\\x 41";
    assert SpaceRun(s, 2) == 1;
    assert DigitRun(s, 3, 2, 16) == 2;
    assert s[3..5] == "41";
    assert Value("41", 16) == 65 by {
      assert "41"[..1] == "4";
      assert "4"[..0] == "";
    }
    RunValueOf(s, 3, 2, 16, 2);
    HexFieldOf(s, 3, false, 0, 2, 65);
    assert HexEscape(s, 0) == Emit('A', 5);
  }

  /** A '-' inside the field negates the value; `(char)x` keeps its low byte. */
  lemma HexMinusExample()
    ensures Decode("\\x-1") == Done([255 as char])
  {
    var s := "\\x-1";
    assert SpaceRun(s, 2) == 0;
    assert DigitRun(s, 3, 1, 16) == 1;
    assert s[3..4] == "1";
    assert Value("1", 16) == 1 by { assert "1"[..0] == ""; }
    RunValueOf(s, 3, 1, 16, 1);
    HexFieldOf(s, 2, true, 1, 1, 1);
    assert ByteChar(Signed(true, 1)) == 255 as char;
    assert HexEscape(s, 0) == Emit(255 as char, 4);
  }

  /** A sign takes one of the field's two characters. */
  lemma HexPlusExample()
    ensures Decode("\\x+41") == Done([4 as char] + "1")
  {
    var s := "\\x+41";
    assert SpaceRun(s, 2) == 0;
    assert DigitRun(s, 3, 1, 16) == 1;
    assert s[3..4] == "4";
    assert Value("4", 16) == 4 by { assert "4"[..0] == ""; }
    RunValueOf(s, 3, 1, 16, 1);
    HexFieldOf(s, 2, false, 1, 1, 4);
    assert HexEscape(s, 0) == Emit(4 as char, 4);
    assert DecodeFrom(s, 4) == Done("1");
  }

  /** White space followed by no digit is still the unrecognised escape. */
  lemma HexSpaceNoDigitExample()
    ensures Decode("\\x g") == BadEscape(0, [])
  {
    var s := "\\x g";
    assert SpaceRun(s, 2) == 1;
    assert DigitRun(s, 3, 2, 16) == 0;
    HexFieldOf(s, 3, false, 0, 0, RunValue(s, 3, 2, 16));
    assert HexEscape(s, 0) == Bad;
  }

  /** sscanf's bounded %o / %x read over the live part of the buffer. */
  method ScanDigits(a: array<char>, j: nat, n: nat, cap: nat, base: Base, ghost s: string) returns (x: nat, k: nat)
    requires |s| == n <= a.Length && j <= n
    requires forall t :: j <= t < n ==> a[t] == s[t]
    ensures k == DigitRun(s, j, cap, base)
    ensures x == RunValue(s, j, cap, base)
  {
    x, k := 0, 0;
    while k < cap && j + k < n && Digit(a[j + k], base).Some?
      invariant k <= cap && j + k <= n
      invariant forall t :: j <= t < j + k ==> Digit(s[t], base).Some?
      invariant x == Value(s[j..j + k], base)
      decreases cap - k
    {
      var next := k + 1;
      var d := Digit(a[j + k], base).value;
      ValueSnoc(s, j, k, next, base);
      x := x * base + d;
      k := next;
    }
    DigitRunShift(s, j, cap, base, k);
    RunValueOf(s, j, cap, base, k);
  }

  /** sscanf's skip of the white space before a numeric field. */
  method SkipSpaces(a: array<char>, j: nat, n: nat, ghost s: string) returns (w: nat)
    requires |s| == n <= a.Length && j <= n
    requires forall t :: j <= t < n ==> a[t] == s[t]
    ensures w == SpaceRun(s, j)
  {
    w := 0;
    while j + w < n && IsSpace(a[j + w])
      invariant j + w <= n
      invariant SpaceRun(s, j) == w + SpaceRun(s, j + w)
      decreases n - j - w
    {
      w := w + 1;
    }
  }

  lemma ValueSnoc(s: string, j: nat, k: nat, next: nat, base: Base)
    requires j + k < |s| && next == k + 1
    requires forall t :: j <= t <= j + k ==> Digit(s[t], base).Some?
    ensures Value(s[j..j + next], base) == Value(s[j..j + k], base) * base + Digit(s[j + k], base).value
  {
    var ds := s[j..j + next];
    assert |ds| == k + 1;
    assert ds[..k] == s[j..j + k];
    assert ds[|ds| - 1] == s[j + k];
  }

  lemma {:induction false} DigitRunShift(s: string, j: nat, cap: nat, base: Base, k: nat)
    requires j + k <= |s| && k <= cap
    requires forall t :: j <= t < j + k ==> Digit(s[t], base).Some?
    ensures DigitRun(s, j, cap, base) == k + DigitRun(s, j + k, cap - k, base)
    decreases k
  {
    if k > 0 {
      DigitRunShift(s, j + 1, cap - 1, base, k - 1);
    }
  }

  /** sscanf(inPtr + 1, "%2x%n") with inPtr at the 'x', and the step it leads to. */
  method ScanHex(a: array<char>, inp: nat, n: nat, ghost s: string) returns (u: Unit)
    requires |s| == n <= a.Length && inp + 2 <= n
    requires forall t :: inp <= t < n ==> a[t] == s[t]
    ensures u == HexEscape(s, inp)
  {
    var w := SkipSpaces(a, inp + 2, n, s);
    var j := inp + 2 + w;
    HexEscapeOf(s, inp, w);
    u := ScanField(a, j, n, s);
  }

  /** The %2x field: an optional sign, then the digits the rest of the width allows. */
  method ScanField(a: array<char>, j: nat, n: nat, ghost s: string) returns (u: Unit)
    requires |s| == n <= a.Length && j <= n
    requires forall t :: j <= t < n ==> a[t] == s[t]
    ensures u == HexField(s, j)
  {
    var sg: nat := 0;
    var neg := false;
    if j < n && IsSign(a[j]) {
      sg, neg := 1, a[j] == '-';
    }
    assert j < n ==> a[j] == s[j];
    var x, k := ScanDigits(a, j + sg, n, 2 - sg, 16, s);
    HexFieldOf(s, j, neg, sg, k, x);
    if k > 0 {
      u := Emit(ByteChar(Signed(neg, x)), j + sg + k);
    } else {
      u := Bad;
    }
  }

  lemma HexEscapeOf(s: string, i: nat, w: nat)
    requires i + 2 <= |s| && w == SpaceRun(s, i + 2)
    ensures HexEscape(s, i) == HexField(s, i + 2 + w)
  {
  }

  /** HexField from the pieces a scan computes. */
  lemma HexFieldOf(s: string, j: nat, neg: bool, sg: nat, k: nat, x: nat)
    requires j <= |s| && sg == (if j < |s| && IsSign(s[j]) then 1 else 0)
    requires neg == (sg == 1 && s[j] == '-')
    requires k == DigitRun(s, j + sg, 2 - sg, 16) && x == RunValue(s, j + sg, 2 - sg, 16)
    ensures HexField(s, j) == if k == 0 then Bad else Emit(ByteChar(Signed(neg, x)), j + sg + k)
  {
  }

  lemma RunValueOf(s: string, j: nat, cap: nat, base: Base, k: nat)
    requires j <= |s| && k == DigitRun(s, j, cap, base)
    ensures RunValue(s, j, cap, base) == Value(s[j..j + k], base)
  {
  }

  /** The switch on one input position: reads the buffer, writes nothing. */
  method ReadUnit(a: array<char>, inp: nat, n: nat, ghost s: string) returns (u: Unit)
    requires |s| == n < a.Length && inp < n && a[n] == NUL
    requires forall t :: inp <= t < n ==> a[t] == s[t]
    ensures u == Step(s, inp)
  {
    var c := a[inp];
    if c != BACKSLASH {
      return Emit(c, inp + 1);
    }
    var p := inp + 1;
    var e := a[p];
    if p == n {
      return Bad;
    }
    var se := SimpleEscape(e);
    if se.Some? {
      u := Emit(se.value, p + 1);
    } else if '0' <= e <= '7' {
      var x, k := ScanDigits(a, p, n, 3, 8, s);
      p := p + k - 1;
      u := Emit(ByteChar(x), p + 1);
    } else if e == 'x' {
      u := ScanHex(a, inp, n, s);
    } else {
      u := Bad;
    }
  }

  /**
   * The C-string variant: decodes a[..n] (a[n] is the terminating NUL) in
   * place. On success the decoded text and a new NUL are at the front; on a
   * bad escape the characters written so far are at the front and the rest
   * of the buffer is untouched.
   */
  method ConvertInPlace(a: array<char>, n: nat) returns (r: Result<nat, nat>)
    requires n < a.Length && a[n] == NUL
    requires forall t :: 0 <= t < n ==> a[t] != NUL
    modifies a
    ensures r.Ok? <==> Decode(old(a[..n])).Done?
    ensures r.Ok? ==>
      r.value <= n && a[..r.value] == Decode(old(a[..n])).out
      && a[r.value] == NUL && a[r.value + 1..] == old(a[r.value + 1..])
    ensures r.Err? ==> var d := Decode(old(a[..n]));
      d.BadEscape? && r.error == d.at && |d.partial| <= n
      && a[..|d.partial|] == d.partial && a[|d.partial|..] == old(a[|d.partial|..])
  {
    ghost var s := a[..n];
    ghost var a0 := a[..];
    var inp, outp := 0, 0;
    var len := 0;
    while a[inp] != NUL
      invariant 0 <= outp <= inp <= n && len == outp
      invariant forall t :: outp <= t < a.Length ==> a[t] == a0[t]
      invariant Decode(s) == Prepend(a[..outp], DecodeFrom(s, inp))
      decreases n - inp
    {
      var u, outp', inp' := WriteUnit(a, n, s, a0, inp, outp);
      if u.Bad? {
        r := Err(inp);
        assert a[..outp] + [] == a[..outp];
        assert a[outp..] == a0[outp..];
        return;
      }
      outp, inp := outp', inp';
      len := len + 1;
    }
    assert a[..outp] + [] == a[..outp];
    a[outp] := NUL;
    assert a[outp + 1..] == a0[outp + 1..];
    r := Ok(len);
  }

  /**
   * One turn of the in-place loop: the unit at `inp` decoded and, unless
   * it is a bad escape, written at `outp`.
   */
  method WriteUnit(a: array<char>, n: nat, ghost s: string, ghost a0: seq<char>, inp: nat, outp: nat)
    returns (u: Unit, outp': nat, inp': nat)
    requires n < a.Length == |a0| && s == a0[..n] && a0[n] == NUL
    requires forall t :: 0 <= t < n ==> a0[t] != NUL
    requires outp <= inp <= n && a[inp] != NUL
    requires forall t :: outp <= t < a.Length ==> a[t] == a0[t]
    requires Decode(s) == Prepend(a[..outp], DecodeFrom(s, inp))
    modifies a
    ensures u.Bad? ==> a[..] == old(a[..]) && Step(s, inp) == Bad
    ensures u.Emit? ==> outp' == outp + 1 && outp' <= inp' <= n && inp < inp'
    ensures u.Emit? ==> forall t :: outp' <= t < a.Length ==> a[t] == a0[t]
    ensures u.Emit? ==> Decode(s) == Prepend(a[..outp'], DecodeFrom(s, inp'))
  {
    assert inp < n;
    u := ReadUnit(a, inp, n, s);
    outp', inp' := outp, inp;
    if u.Emit? {
      PrependPrepend(a[..outp], [u.c], DecodeFrom(s, u.next));
      ghost var pre := a[..outp];
      a[outp] := u.c;
      outp' := outp + 1;
      assert a[..outp'] == pre + [u.c];
      inp' := u.next;
    }
  }

  /** The text a C string sees: everything before the first NUL. */
  function CStr(s: string): (r: string)
    ensures r <= s && NUL !in r
    ensures |r| < |s| ==> s[|r|] == NUL
  {
    if s == [] || s[0] == NUL then [] else [s[0]] + CStr(s[1..])
  }

  lemma {:induction false} CStrIdempotent(s: string)
    ensures CStr(CStr(s)) == CStr(s)
  {
    if s != [] && s[0] != NUL {
      CStrIdempotent(s[1..]);
    }
  }

  /**
   * The std::string variants: decode the string's buffer in place and
   * resize it to the decoded length. A bad escape throws, leaving the
   * buffer partly rewritten; `Err` carries that buffer.
   */
  method ConvertString(s: string) returns (r: Result<string, string>)
    ensures r.Ok? <==> Decode(CStr(s)).Done?
    ensures r.Ok? ==> r.value == Decode(CStr(s)).out
    ensures r.Err? ==> var p := Decode(CStr(s)).partial;
      |p| <= |s| && r.error == p + s[|p|..]
  {
    var a := new char[|s| + 1](i => if 0 <= i < |s| then s[i] else NUL);
    assert a[..|s|] == s;
    var n := |CStr(s)|;
    assert a[..n] == CStr(s);
    ghost var a0 := a[..];
    var res := ConvertInPlace(a, n);
    if res.Ok? {
      r := Ok(a[..res.value]);
    } else {
      ghost var p := Decode(CStr(s)).partial;
      ghost var k := |p|;
      assert a[k..] == a0[k..];
      assert a[k..|s|] == a0[k..|s|] == s[k..] by {
        assert a[k..|s|] == a[k..][..|s| - k];
        assert a0[k..|s|] == a0[k..][..|s| - k];
      }
      assert a[..|s|] == a[..k] + a[k..|s|];
      r := Err(a[..|s|]);
    }
  }
}
