/**
 * The JavaScript string primitives the core relies on: `trim()`, the `\s`
 * character class, `toLowerCase()` and `startsWith()`.  Strings are sequences
 * of characters; a JavaScript string's `.length` is modelled as the length of
 * the sequence.
 */
module Text {

  /** ECMAScript WhiteSpace or LineTerminator: what `trim()` strips and what `\s` matches. */
  predicate IsWhitespace(c: char) {
    || c == '\t' || c == '\n' || c == '\U{000B}' || c == '\U{000C}' || c == '\r' || c == ' '
    || c == '\U{00A0}' || c == '\U{1680}' || ('\U{2000}' <= c <= '\U{200A}')
    || c == '\U{2028}' || c == '\U{2029}' || c == '\U{202F}' || c == '\U{205F}'
    || c == '\U{3000}' || c == '\U{FEFF}'
  }

  /**
   * The same set written as the table of code points the ECMAScript standard
   * lists (WhiteSpace: section 12.2, LineTerminator: section 12.3, with the
   * Unicode "Space_Separator" code points spelled out).  U+180E and U+200B are
   * not in it.
   */
  lemma IsWhitespaceTable(c: char)
    ensures IsWhitespace(c) <==> c in {
      '\t', '\n', '\U{000B}', '\U{000C}', '\r', ' ', '\U{00A0}', '\U{1680}',
      '\U{2000}', '\U{2001}', '\U{2002}', '\U{2003}', '\U{2004}', '\U{2005}',
      '\U{2006}', '\U{2007}', '\U{2008}', '\U{2009}', '\U{200A}',
      '\U{2028}', '\U{2029}', '\U{202F}', '\U{205F}', '\U{3000}', '\U{FEFF}'
    }
  {
  }

  predicate AllWhitespace(s: string) {
    forall i :: 0 <= i < |s| ==> IsWhitespace(s[i])
  }

  predicate NoWhitespace(s: string) {
    forall i :: 0 <= i < |s| ==> !IsWhitespace(s[i])
  }

  /** `trimStart()`: the suffix left once the leading whitespace run is removed. */
  function TrimStart(s: string): (r: string)
    ensures |r| <= |s|
    ensures r == [] || !IsWhitespace(r[0])
    ensures r == [] <==> AllWhitespace(s)
  {
    if s == [] || !IsWhitespace(s[0]) then s else TrimStart(s[1..])
  }

  /** `trimEnd()`: the prefix left once the trailing whitespace run is removed. */
  function TrimEnd(s: string): (r: string)
    ensures |r| <= |s|
    ensures r == [] || !IsWhitespace(r[|r| - 1])
    ensures r == [] <==> AllWhitespace(s)
  {
    if s == [] || !IsWhitespace(s[|s| - 1]) then s else TrimEnd(s[..|s| - 1])
  }

  /** `trim()`: both whitespace runs removed. */
  function Trim(s: string): (r: string)
    ensures |r| <= |s|
    ensures r == [] <==> AllWhitespace(s)
    ensures r == [] || (!IsWhitespace(r[0]) && !IsWhitespace(r[|r| - 1]))
  {
    TrimEndKeepsPrefix(TrimStart(s));
    TrimEnd(TrimStart(s))
  }

  lemma {:induction false} TrimEndKeepsPrefix(s: string)
    ensures forall i :: 0 <= i < |TrimEnd(s)| ==> TrimEnd(s)[i] == s[i]
  {
    if s != [] && IsWhitespace(s[|s| - 1]) {
      TrimEndKeepsPrefix(s[..|s| - 1]);
    }
  }

  /** ASCII `toLowerCase()` of one character: `A`-`Z` become `a`-`z`, everything else is kept. */
  function LowerChar(c: char): (r: char)
    ensures 'A' <= c <= 'Z' ==> 'a' <= r <= 'z' && r as int - c as int == 32
    ensures !('A' <= c <= 'Z') ==> r == c
  {
    if 'A' <= c <= 'Z' then (c as int + 32) as char else c
  }

  /** `toLowerCase()`, character by character. */
  function Lower(s: string): (r: string)
    ensures |r| == |s| && forall i :: 0 <= i < |s| ==> r[i] == LowerChar(s[i])
  {
    seq(|s|, i requires 0 <= i < |s| => LowerChar(s[i]))
  }

  /** `s.startsWith(prefix)`. */
  predicate StartsWith(s: string, prefix: string) {
    |prefix| <= |s| && s[..|prefix|] == prefix
  }

  lemma LowerAppend(a: string, b: string)
    ensures Lower(a + b) == Lower(a) + Lower(b)
  {
  }

  lemma LowerIdempotent(s: string)
    ensures Lower(Lower(s)) == Lower(s)
  {
  }

  /** Stripping whitespace on the outside does not change the trimmed text. */
  lemma {:induction false} TrimStartAfterWhitespace(u: string, s: string)
    requires AllWhitespace(u)
    ensures TrimStart(u + s) == TrimStart(s)
  {
    if u != [] {
      var w := u + s;
      assert w[0] == u[0] && w[1..] == u[1..] + s;
      assert IsWhitespace(w[0]);
      assert TrimStart(w) == TrimStart(w[1..]);
      TrimStartAfterWhitespace(u[1..], s);
    } else {
      assert u + s == s;
    }
  }

  lemma {:induction false} TrimEndBeforeWhitespace(s: string, v: string)
    requires AllWhitespace(v)
    ensures TrimEnd(s + v) == TrimEnd(s)
  {
    if v != [] {
      var w := s + v;
      assert w[|w| - 1] == v[|v| - 1] && w[..|w| - 1] == s + v[..|v| - 1];
      assert IsWhitespace(w[|w| - 1]);
      assert TrimEnd(w) == TrimEnd(w[..|w| - 1]);
      TrimEndBeforeWhitespace(s, v[..|v| - 1]);
    } else {
      assert s + v == s;
    }
  }

  /** Text that has a non-blank character keeps whatever follows it when its start is trimmed. */
  lemma {:induction false} TrimStartAppend(s: string, v: string)
    requires !AllWhitespace(s)
    ensures TrimStart(s + v) == TrimStart(s) + v
  {
    if IsWhitespace(s[0]) {
      assert (s + v)[1..] == s[1..] + v;
      assert !AllWhitespace(s[1..]) by {
        var i :| 0 <= i < |s| && !IsWhitespace(s[i]);
        assert s[1..][i - 1] == s[i];
      }
      TrimStartAppend(s[1..], v);
    }
  }

  lemma {:induction false} TrimEndPrepend(u: string, s: string)
    requires !AllWhitespace(s)
    ensures TrimEnd(u + s) == u + TrimEnd(s)
  {
    if IsWhitespace(s[|s| - 1]) {
      assert (u + s)[..|u + s| - 1] == u + s[..|s| - 1];
      assert !AllWhitespace(s[..|s| - 1]) by {
        var i :| 0 <= i < |s| && !IsWhitespace(s[i]);
        assert s[..|s| - 1][i] == s[i];
      }
      TrimEndPrepend(u, s[..|s| - 1]);
    }
  }

  /** Leading and trailing whitespace never reach the result of `trim()`. */
  lemma TrimIgnoresPadding(u: string, s: string, v: string)
    requires AllWhitespace(u) && AllWhitespace(v)
    ensures Trim(u + s + v) == Trim(s)
  {
    assert u + s + v == u + (s + v);
    TrimStartAfterWhitespace(u, s + v);
    if AllWhitespace(s) {
      assert AllWhitespace(s + v) by {
        forall i | 0 <= i < |s + v| ensures IsWhitespace((s + v)[i]) {
          if i < |s| { assert (s + v)[i] == s[i]; } else { assert (s + v)[i] == v[i - |s|]; }
        }
      }
    } else {
      TrimStartAppend(s, v);
      TrimEndBeforeWhitespace(TrimStart(s), v);
    }
  }

  /** Text with no whitespace at either end is its own `trim()`. */
  lemma TrimUnpadded(s: string)
    requires s == [] || (!IsWhitespace(s[0]) && !IsWhitespace(s[|s| - 1]))
    ensures Trim(s) == s
  {
  }

  /** What `trimStart()` removes is a whitespace run. */
  lemma {:induction false} TrimStartSplit(s: string) returns (u: string)
    ensures AllWhitespace(u) && s == u + TrimStart(s)
  {
    if s == [] || !IsWhitespace(s[0]) {
      u := [];
    } else {
      var w := TrimStartSplit(s[1..]);
      u := [s[0]] + w;
      assert s == [s[0]] + s[1..];
    }
  }

  /** What `trimEnd()` removes is a whitespace run. */
  lemma {:induction false} TrimEndSplit(s: string) returns (v: string)
    ensures AllWhitespace(v) && s == TrimEnd(s) + v
  {
    if s == [] || !IsWhitespace(s[|s| - 1]) {
      v := [];
    } else {
      var w := TrimEndSplit(s[..|s| - 1]);
      v := w + [s[|s| - 1]];
      assert s == s[..|s| - 1] + [s[|s| - 1]];
    }
  }

  /** Every string is its `trim()` with a whitespace run on either side. */
  lemma TrimDecomposition(s: string) returns (u: string, v: string)
    ensures AllWhitespace(u) && AllWhitespace(v)
    ensures s == u + Trim(s) + v
  {
    u := TrimStartSplit(s);
    v := TrimEndSplit(TrimStart(s));
    assert Trim(s) == TrimEnd(TrimStart(s));
  }

  lemma AllWhitespaceAppend(x: string, y: string)
    requires AllWhitespace(x) && AllWhitespace(y)
    ensures AllWhitespace(x + y)
  {
    forall i | 0 <= i < |x + y| ensures IsWhitespace((x + y)[i]) {
      if i < |x| { assert (x + y)[i] == x[i]; } else { assert (x + y)[i] == y[i - |x|]; }
    }
  }

  /**
   * Concatenation regrouped, stated apart so that the regrouping is proved
   * where no recursive function is in sight; done inline, next to `Split` or `TagsOf`
   * terms, it sends the solver unfolding those and past its resource budget.
   */
  lemma Associate(x: string, y: string, z: string)
    ensures x + y + z == x + (y + z)
  {
  }

  /** Four pieces regrouped; like `Associate`, kept apart from recursive terms. */
  lemma Regroup(a: string, v: string, u: string, b: string)
    ensures a + v + u + b == a + (v + u) + b
  {
  }
}
