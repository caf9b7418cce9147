/**
 * The DOS-wildcard rewrite that validPattern applies before compiling a
 * pattern: ReplaceAll(value, "*", ".*") and then ReplaceAll(value, "?", ".").
 * ReplaceAll replaces every occurrence, resuming after the inserted text.
 */
module Globs {
  /** ReplaceAll for a one-character target. */
  function ReplaceChar(s: string, c: char, rep: string): (r: string)
    ensures c !in rep ==> c !in r
  {
    if s == [] then []
    else (if s[0] == c then rep else [s[0]]) + ReplaceChar(s[1..], c, rep)
  }

  /** The two rewrites of validPattern, in order. */
  function GlobToRegex(s: string): string
  {
    ReplaceChar(ReplaceChar(s, '*', ".*"), '?', ".")
  }

  /** Reference definition: what each character of a DOS pattern turns into. */
  function GlobChar(c: char): string
  {
    if c == '*' then ".*" else if c == '?' then "." else [c]
  }

  function MapGlob(s: string): string
  {
    if s == [] then [] else GlobChar(s[0]) + MapGlob(s[1..])
  }

  lemma {:induction false} ReplaceCharAppend(a: string, b: string, c: char, rep: string)
    ensures ReplaceChar(a + b, c, rep) == ReplaceChar(a, c, rep) + ReplaceChar(b, c, rep)
    decreases |a|
  {
    if a != [] {
      assert (a + b)[1..] == a[1..] + b;
      ReplaceCharAppend(a[1..], b, c, rep);
    } else {
      assert a + b == b;
    }
  }

  /**
   * The '?' pass does not touch what the '*' pass inserted, so the two
   * passes amount to rewriting each character independently.
   */
  lemma {:induction false} GlobIsPerCharacter(s: string)
    ensures GlobToRegex(s) == MapGlob(s)
    decreases |s|
  {
    if s != [] {
      var head := if s[0] == '*' then ".*" else [s[0]];
      var starred := ReplaceChar(s, '*', ".*");
      assert starred == head + ReplaceChar(s[1..], '*', ".*");
      ReplaceCharAppend(head, ReplaceChar(s[1..], '*', ".*"), '?', ".");
      GlobIsPerCharacter(s[1..]);
      if s[0] == '*' {
        assert ReplaceChar(".*", '?', ".") == ".*" by {
          assert ".*"[1..] == "*";
        }
      } else {
        assert ReplaceChar([s[0]], '?', ".") == GlobChar(s[0]) by {
          assert [s[0]][1..] == [];
        }
      }
    }
  }

  /** The rewritten pattern has no '?' left, and keeps every other character but '*' in place. */
  lemma GlobFacts(s: string)
    ensures '?' !in GlobToRegex(s)
    ensures ('*' !in s && '?' !in s) ==> GlobToRegex(s) == s
  {
    if '*' !in s && '?' !in s {
      NoWildcardsUnchanged(s);
      GlobIsPerCharacter(s);
    }
  }

  lemma {:induction false} NoWildcardsUnchanged(s: string)
    requires '*' !in s && '?' !in s
    ensures MapGlob(s) == s
    decreases |s|
  {
    if s != [] {
      assert s[0] in s;
      assert forall x :: x in s[1..] ==> x in s;
      NoWildcardsUnchanged(s[1..]);
      assert s == [s[0]] + s[1..];
    }
  }

  lemma GlobExample()
    ensures GlobToRegex("*.c?p") == ".*.c.p"
  {
    GlobIsPerCharacter("*.c?p");
    assert "*.c?p"[1..] == ".c?p";
    assert ".c?p"[1..] == "c?p";
    assert "c?p"[1..] == "?p";
    assert "?p"[1..] == "p";
  }
}
