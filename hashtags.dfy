/**
 * Hashtag extraction and canonicalisation (`parseHashtags` and
 * `normalizeHashtag` of the client's hashtag library).  A tag is canonical
 * when it is non-empty and made of `a`-`z`, `0`-`9` and `_` only.
 */
module Hashtags {
  import opened Wrappers
  import opened Text

  predicate IsTagChar(c: char) {
    ('a' <= c <= 'z') || ('0' <= c <= '9') || c == '_'
  }

  /** A canonical tag: what a non-null `normalizeHashtag` returns. */
  predicate IsTag(s: string) {
    |s| > 0 && forall i :: 0 <= i < |s| ==> IsTagChar(s[i])
  }

  predicate NoDuplicates<T(==)>(s: seq<T>) {
    forall i, j :: 0 <= i < j < |s| ==> s[i] != s[j]
  }

  // ---------------------------------------------------------------------------
  // normalizeHashtag

  /** `replace(/#/g, '')`: every `#` removed, the other characters kept in order. */
  function RemoveHashes(s: string): (r: string)
    ensures |r| <= |s|
    ensures forall i :: 0 <= i < |r| ==> r[i] != '#'
  {
    if s == [] then []
    else (if s[0] == '#' then [] else [s[0]]) + RemoveHashes(s[1..])
  }

  /** Text without `#` is left as it is. */
  lemma {:induction false} RemoveHashesWithoutHash(s: string)
    requires '#' !in s
    ensures RemoveHashes(s) == s
  {
    if s != [] {
      assert s[0] != '#' && '#' !in s[1..];
      RemoveHashesWithoutHash(s[1..]);
      assert s == [s[0]] + s[1..];
    }
  }

  /** Removing `#` works piece by piece. */
  lemma {:induction false} RemoveHashesAppend(a: string, b: string)
    ensures RemoveHashes(a + b) == RemoveHashes(a) + RemoveHashes(b)
  {
    if a == [] {
      assert a + b == b;
    } else {
      assert (a + b)[0] == a[0] && (a + b)[1..] == a[1..] + b;
      RemoveHashesAppend(a[1..], b);
    }
  }

  /** A `#` anywhere disappears and takes nothing else with it. */
  lemma RemoveHashesDropsHash(a: string, b: string)
    ensures RemoveHashes(a + "#" + b) == RemoveHashes(a + b)
  {
    RemoveHashesAppend(a + "#", b);
    RemoveHashesAppend(a, "#");
    RemoveHashesAppend(a, b);
    assert RemoveHashes("#") == [] by {
      assert "#"[1..] == [];
    }
  }

  /** `replace(/[^a-z0-9_]/g, '')`: only the tag characters kept, in order. */
  function KeepTagChars(s: string): (r: string)
    ensures |r| <= |s|
    ensures forall i :: 0 <= i < |r| ==> IsTagChar(r[i])
  {
    if s == [] then []
    else (if IsTagChar(s[0]) then [s[0]] else []) + KeepTagChars(s[1..])
  }

  /**
   * `normalizeHashtag`: strip `#`, trim, lower-case, return null when nothing
   * is left, then keep only the tag characters and return null when nothing
   * is left.  The result is exactly the tag characters of the lower-cased
   * token: removing `#` and trimming drop nothing that the character filter
   * would keep, so the early null agrees with the final one.
   */
  function NormalizeHashtag(tag: string): (r: Option<string>)
    ensures r.Some? ==> IsTag(r.value)
    ensures r.Some? ==> r.value == KeepTagChars(Lower(tag))
    ensures r.None? <==> KeepTagChars(Lower(tag)) == []
  {
    var cleaned := Lower(Trim(RemoveHashes(tag)));
    CleaningKeepsTagChars(tag);
    if cleaned == [] then None
    else
      var normalized := KeepTagChars(cleaned);
      if normalized == [] then None else Some(normalized)
  }

  /** The character filter leaves nothing exactly when no character is a tag character. */
  lemma {:induction false} KeepTagCharsEmptyIff(s: string)
    ensures KeepTagChars(s) == [] <==> forall i :: 0 <= i < |s| ==> !IsTagChar(s[i])
  {
    if s != [] {
      KeepTagCharsEmptyIff(s[1..]);
      assert forall i :: 1 <= i < |s| ==> s[i] == s[1..][i - 1];
    }
  }

  /** The character filter keeps a string made only of tag characters whole. */
  lemma {:induction false} KeepTagCharsOfTagChars(s: string)
    requires forall i :: 0 <= i < |s| ==> IsTagChar(s[i])
    ensures KeepTagChars(s) == s
  {
    if s != [] {
      KeepTagCharsOfTagChars(s[1..]);
      assert s == [s[0]] + s[1..];
    }
  }

  lemma {:induction false} KeepTagCharsAppend(a: string, b: string)
    ensures KeepTagChars(a + b) == KeepTagChars(a) + KeepTagChars(b)
  {
    if a == [] {
      assert a + b == b;
    } else {
      assert (a + b)[0] == a[0] && (a + b)[1..] == a[1..] + b;
      KeepTagCharsAppend(a[1..], b);
    }
  }

  lemma LowerTagCharsAppend(a: string, b: string)
    ensures KeepTagChars(Lower(a + b)) == KeepTagChars(Lower(a)) + KeepTagChars(Lower(b))
  {
    LowerAppend(a, b);
    KeepTagCharsAppend(Lower(a), Lower(b));
  }

  lemma {:induction false} TagCharsIgnoreHashes(s: string)
    ensures KeepTagChars(Lower(RemoveHashes(s))) == KeepTagChars(Lower(s))
  {
    if s != [] {
      var head := if s[0] == '#' then [] else [s[0]];
      assert s == [s[0]] + s[1..];
      LowerAppend(head, RemoveHashes(s[1..]));
      KeepTagCharsAppend(Lower(head), Lower(RemoveHashes(s[1..])));
      LowerAppend([s[0]], s[1..]);
      KeepTagCharsAppend(Lower([s[0]]), Lower(s[1..]));
      TagCharsIgnoreHashes(s[1..]);
      assert KeepTagChars(Lower(head)) == KeepTagChars(Lower([s[0]]));
    }
  }

  lemma TagCharsIgnoreWhitespace(u: string)
    requires AllWhitespace(u)
    ensures KeepTagChars(Lower(u)) == []
  {
    KeepTagCharsEmptyIff(Lower(u));
  }

  lemma TagCharsIgnoreTrim(s: string)
    ensures KeepTagChars(Lower(Trim(s))) == KeepTagChars(Lower(s))
  {
    var u, v := TrimDecomposition(s);
    LowerAppend(u, Trim(s));
    LowerAppend(u + Trim(s), v);
    KeepTagCharsAppend(Lower(u), Lower(Trim(s)));
    KeepTagCharsAppend(Lower(u) + Lower(Trim(s)), Lower(v));
    TagCharsIgnoreWhitespace(u);
    TagCharsIgnoreWhitespace(v);
  }

  lemma CleaningKeepsTagChars(tag: string)
    ensures KeepTagChars(Lower(Trim(RemoveHashes(tag)))) == KeepTagChars(Lower(tag))
  {
    TagCharsIgnoreTrim(RemoveHashes(tag));
    TagCharsIgnoreHashes(tag);
  }

  /** Two tokens with the same lower-cased tag characters normalise alike. */
  lemma NormalizeDeterminedByTagChars(x: string, y: string)
    requires KeepTagChars(Lower(x)) == KeepTagChars(Lower(y))
    ensures NormalizeHashtag(x) == NormalizeHashtag(y)
  {
    var nx, ny := NormalizeHashtag(x), NormalizeHashtag(y);
    if nx.None? {
      assert ny.None?;
    } else {
      assert ny.Some? && nx.value == ny.value;
    }
  }

  /** A token normalises to null exactly when none of its lower-cased characters is a tag character. */
  lemma NormalizeHashtagNullIff(tag: string)
    ensures NormalizeHashtag(tag).None? <==> forall i :: 0 <= i < |tag| ==> !IsTagChar(LowerChar(tag[i]))
  {
    KeepTagCharsEmptyIff(Lower(tag));
  }

  /** A canonical tag normalises to itself, with or without a leading `#`. */
  lemma NormalizeCanonical(s: string)
    requires IsTag(s)
    ensures NormalizeHashtag(s) == Some(s)
    ensures NormalizeHashtag("#" + s) == Some(s)
  {
    assert Lower(s) == s;
    KeepTagCharsOfTagChars(s);
    LowerTagCharsAppend("#", s);
    assert KeepTagChars(Lower("#")) == [];
    assert KeepTagChars(Lower("#" + s)) == s;
    var r := NormalizeHashtag("#" + s);
    assert r.Some? && r.value == s;
  }

  /** Normalising twice gives what normalising once gives. */
  lemma NormalizeIdempotent(tag: string)
    requires NormalizeHashtag(tag).Some?
    ensures NormalizeHashtag(NormalizeHashtag(tag).value) == NormalizeHashtag(tag)
    ensures NormalizeHashtag("#" + NormalizeHashtag(tag).value) == NormalizeHashtag(tag)
  {
    NormalizeCanonical(NormalizeHashtag(tag).value);
  }

  /** Upper- and lower-case spellings of a token normalise alike. */
  lemma NormalizeIgnoresCase(tag: string)
    ensures NormalizeHashtag(Lower(tag)) == NormalizeHashtag(tag)
  {
    LowerIdempotent(tag);
  }

  /** A `#`, a punctuation mark or any other non-tag character anywhere in a token changes nothing. */
  lemma TagCharsIgnoreNonTagChar(a: string, c: char, b: string)
    requires !IsTagChar(LowerChar(c))
    ensures KeepTagChars(Lower(a + [c] + b)) == KeepTagChars(Lower(a + b))
  {
    var ka, kc, kb := KeepTagChars(Lower(a)), KeepTagChars(Lower([c])), KeepTagChars(Lower(b));
    assert kc == [];
    LowerTagCharsAppend(a + [c], b);
    LowerTagCharsAppend(a, [c]);
    LowerTagCharsAppend(a, b);
    assert ka + kc + kb == ka + kb;
  }

  lemma NormalizeIgnoresNonTagChar(a: string, c: char, b: string)
    requires !IsTagChar(LowerChar(c))
    ensures NormalizeHashtag(a + [c] + b) == NormalizeHashtag(a + b)
  {
    TagCharsIgnoreNonTagChar(a, c, b);
    NormalizeDeterminedByTagChars(a + [c] + b, a + b);
  }

  /** `#Music` and `#MUSIC!!` both give `music`. */
  lemma NormalizeMusicExample(x: string, y: string)
    requires x == "#Music" && y == "#MUSIC!!"
    ensures NormalizeHashtag(x) == Some("music")
    ensures NormalizeHashtag(y) == Some("music")
  {
    var m := "music";
    assert Lower(x) == ['#'] + m;
    assert Lower(y) == ['#'] + m + "!!";
    KeepTagCharsAppend(['#'], m);
    KeepTagCharsAppend(['#'] + m, "!!");
    KeepTagCharsOfTagChars(m);
    assert KeepTagChars(Lower(x)) == m;
    assert KeepTagChars(Lower(y)) == m;
    var nx, ny := NormalizeHashtag(x), NormalizeHashtag(y);
    assert nx.Some? && nx.value == m;
    assert ny.Some? && ny.value == m;
  }

  // ---------------------------------------------------------------------------
  // String.prototype.split(/\s+/)

  /**
   * `split(/\s+/)`: the pieces between maximal whitespace runs, in order.  As
   * in JavaScript, text that starts (ends) with whitespace yields an empty
   * first (last) piece, and the empty string yields one empty piece.
   */
  function Split(s: string): (r: seq<string>)
    ensures |r| >= 1
    decreases |s|
  {
    if s == [] then [""]
    else if IsWhitespace(s[0]) then [""] + Split(TrimStart(s[1..]))
    else
      var rest := Split(s[1..]);
      [[s[0]] + rest[0]] + rest[1..]
  }

  /** No piece holds whitespace; the first piece is empty exactly when the text is empty or starts with whitespace. */
  lemma {:induction false} SplitPieces(s: string)
    ensures forall k :: 0 <= k < |Split(s)| ==> NoWhitespace(Split(s)[k])
    ensures Split(s)[0] == [] <==> (s == [] || IsWhitespace(s[0]))
    decreases |s|
  {
    if s == [] {
    } else if IsWhitespace(s[0]) {
      SplitPieces(TrimStart(s[1..]));
    } else {
      SplitPieces(s[1..]);
      var rest := Split(s[1..]);
      assert NoWhitespace([s[0]] + rest[0]) by {
        forall i | 0 <= i < |[s[0]] + rest[0]| ensures !IsWhitespace(([s[0]] + rest[0])[i]) {
          if i > 0 { assert ([s[0]] + rest[0])[i] == rest[0][i - 1]; }
        }
      }
      assert forall k :: 1 <= k < |Split(s)| ==> Split(s)[k] == rest[k];
    }
  }

  /** A single word without whitespace is one piece. */
  lemma {:induction false} SplitWord(w: string)
    requires w != [] && NoWhitespace(w)
    ensures Split(w) == [w]
    decreases |w|
  {
    if |w| > 1 {
      SplitWord(w[1..]);
      assert w == [w[0]] + w[1..];
    } else {
      assert w[1..] == [];
      assert [w[0]] + "" == w;
    }
  }

  /**
   * The pieces of text before and after a whitespace run are split
   * independently: `Split(a + u + b)` is the pieces of `a` (its trailing
   * whitespace trimmed) followed by the pieces of `b` (its leading whitespace
   * trimmed).
   */
  lemma SplitAtWhitespace(a: string, u: string, b: string)
    requires u != [] && AllWhitespace(u)
    ensures Split(a + u + b) == Split(TrimEnd(a)) + Split(TrimStart(b))
  {
    var v := TrimEndSplit(a);
    var a' := TrimEnd(a);
    AllWhitespaceAppend(v, u);
    Regroup(a', v, u, b);
    SplitAfterWord(a', v + u, b);
  }

  /** Dropping the leading whitespace of a text that ends in a non-whitespace character keeps that last character. */
  lemma LeadingWhitespaceDropped(a: string, v: string)
    requires a != [] && IsWhitespace(a[0]) && !IsWhitespace(a[|a| - 1])
    ensures TrimStart(a[1..] + v) == TrimStart(a[1..]) + v
    ensures TrimStart(a[1..]) != [] && TrimStart(a[1..])[|TrimStart(a[1..])| - 1] == a[|a| - 1]
  {
    assert !AllWhitespace(a[1..]) by {
      assert a[1..][|a| - 2] == a[|a| - 1];
    }
    TrimStartAppend(a[1..], v);
    var w := TrimStartSplit(a[1..]);
    assert a[1..] == w + TrimStart(a[1..]);
    assert a[1..][|a| - 2] == a[|a| - 1];
  }

  lemma {:induction false} SplitAfterWord(a: string, u: string, b: string)
    requires a == [] || !IsWhitespace(a[|a| - 1])
    requires u != [] && AllWhitespace(u)
    ensures Split(a + u + b) == Split(a) + Split(TrimStart(b))
    decreases |a|
  {
    var q := Split(TrimStart(b));
    if a == [] {
      SplitAfterNothing(a, u, b);
    } else if IsWhitespace(a[0]) {
      var a' := TrimStart(a[1..]);
      LeadingWhitespaceDropped(a, u + b);
      SplitAfterWord(a', u, b);
      Associate(a', u, b);
      SplitStepLeadingSpace(a, u + b, q);
      Associate(a, u, b);
    } else {
      SplitAfterWord(a[1..], u, b);
      Associate(a[1..], u, b);
      SplitStepLeadingChar(a, u + b, q);
      Associate(a, u, b);
    }
  }

  /** `SplitAfterWord` when the word is empty. */
  lemma SplitAfterNothing(a: string, u: string, b: string)
    requires a == [] && u != [] && AllWhitespace(u)
    ensures Split(a + u + b) == Split(a) + Split(TrimStart(b))
  {
    SplitOffFirst(u, b);
    SplitConsSpace(u[0], u[1..] + b);
    TrimStartAfterWhitespace(u[1..], b);
    assert a + u + b == u + b;
  }

  /** A text that starts with whitespace splits as its rest does, behind one empty piece. */
  lemma SplitStepLeadingSpace(a: string, v: string, q: seq<string>)
    requires a != [] && IsWhitespace(a[0])
    requires TrimStart(a[1..] + v) == TrimStart(a[1..]) + v
    requires Split(TrimStart(a[1..]) + v) == Split(TrimStart(a[1..])) + q
    ensures Split(a + v) == Split(a) + q
  {
    SplitOffFirst(a, v);
    SplitOffFirst(a, []);
    assert a + [] == a && a[1..] + [] == a[1..];
    SplitStepSpace(a[0], a[1..] + v, a[1..], q);
  }

  /** A text that starts with a non-whitespace character splits as its rest does, that character joined to the first piece. */
  lemma SplitStepLeadingChar(a: string, v: string, q: seq<string>)
    requires a != [] && !IsWhitespace(a[0])
    requires Split(a[1..] + v) == Split(a[1..]) + q
    ensures Split(a + v) == Split(a) + q
  {
    SplitOffFirst(a, v);
    SplitOffFirst(a, []);
    assert a + [] == a && a[1..] + [] == a[1..];
    SplitStepChar(a[0], a[1..] + v, a[1..], q);
  }

  /**
   * A non-empty text is its first character followed by the rest;
   * stated apart so that the regrouping is proved
   * where no recursive function is in sight; done inline, next to `Split` or `TagsOf`
   * terms, it sends the solver unfolding those and past its resource budget.
   */
  lemma SplitOffFirst(a: string, v: string)
    requires a != []
    ensures a + v == [a[0]] + (a[1..] + v)
  {
  }

  /** `Split` of a text that starts with whitespace. */
  lemma SplitConsSpace(c: char, t: string)
    requires IsWhitespace(c)
    ensures Split([c] + t) == [""] + Split(TrimStart(t))
  {
    assert ([c] + t)[0] == c && ([c] + t)[1..] == t;
  }

  /** `Split` of a text that starts with a non-whitespace character. */
  lemma SplitConsChar(c: char, t: string)
    requires !IsWhitespace(c)
    ensures Split([c] + t) == [[c] + Split(t)[0]] + Split(t)[1..]
  {
    assert ([c] + t)[0] == c && ([c] + t)[1..] == t;
  }

  /** A leading whitespace character adds the same empty piece in front of two texts. */
  lemma SplitStepSpace(c: char, x: string, y: string, q: seq<string>)
    requires IsWhitespace(c) && Split(TrimStart(x)) == Split(TrimStart(y)) + q
    ensures Split([c] + x) == Split([c] + y) + q
  {
    SplitConsSpace(c, x);
    SplitConsSpace(c, y);
    PrependPiece("", Split(TrimStart(y)), q);
  }

  /**
   * Putting a piece in front of `p + q` is putting it in front of `p`; kept apart
   * from `Split` terms for the same reason as `SplitOffFirst`.
   */
  lemma PrependPiece(h: string, p: seq<string>, q: seq<string>)
    ensures [h] + (p + q) == ([h] + p) + q
  {
  }

  /** A leading non-whitespace character extends the first piece of two texts alike. */
  lemma SplitStepChar(c: char, x: string, y: string, q: seq<string>)
    requires !IsWhitespace(c) && Split(x) == Split(y) + q
    ensures Split([c] + x) == Split([c] + y) + q
  {
    SplitConsChar(c, x);
    SplitConsChar(c, y);
    ExtendFirstPiece([c], Split(y), q);
  }

  /** Extending the first piece of `p + q` is extending the first piece of `p`. */
  lemma ExtendFirstPiece(h: string, p: seq<string>, q: seq<string>)
    requires |p| >= 1
    ensures [h + (p + q)[0]] + (p + q)[1..] == ([h + p[0]] + p[1..]) + q
  {
    assert (p + q)[0] == p[0] && (p + q)[1..] == p[1..] + q;
  }

  // ---------------------------------------------------------------------------
  // The filter-map chain of parseHashtags

  /** `word.startsWith('#') && word.length > 1`. */
  predicate IsHashWord(w: string) {
    |w| > 1 && w[0] == '#'
  }

  /** `IsHashWord` is the source's filter condition, `word.startsWith('#') && word.length > 1`. */
  lemma HashWordIsFilterCondition(w: string)
    ensures IsHashWord(w) <==> StartsWith(w, "#") && |w| > 1
  {
  }

  /** `.map((word) => word.trim())`. */
  function TrimAll(words: seq<string>): (r: seq<string>)
    ensures |r| == |words|
  {
    if words == [] then [] else [Trim(words[0])] + TrimAll(words[1..])
  }

  /** `.filter((word) => word.startsWith('#') && word.length > 1)`. */
  function HashWords(words: seq<string>): seq<string>
  {
    if words == [] then []
    else (if IsHashWord(words[0]) then [words[0]] else []) + HashWords(words[1..])
  }

  /** `.map(f).filter((x) => x !== null)`: the non-null results of `f`, in order. */
  function MapNonNull<A, B>(f: A -> Option<B>, xs: seq<A>): seq<B>
  {
    if xs == [] then []
    else (match f(xs[0]) case None => [] case Some(y) => [y]) + MapNonNull(f, xs[1..])
  }

  /** `.map((tag) => normalizeHashtag(tag)).filter((tag) => tag !== null)`. */
  function NormalizeAll(words: seq<string>): seq<string>
  {
    MapNonNull(NormalizeHashtag, words)
  }

  /** The tags a sequence of pieces yields, before duplicates are removed. */
  function TagsOf(words: seq<string>): seq<string>
  {
    NormalizeAll(HashWords(TrimAll(words)))
  }

  /** The tags of the whole input, in order of occurrence, duplicates included. */
  function Candidates(input: string): seq<string>
  {
    TagsOf(Split(input))
  }

  /** Piece `k` of the trimmed pieces is piece `k`, trimmed. */
  lemma {:induction false} TrimAllAt(words: seq<string>, k: nat)
    requires k < |words|
    ensures TrimAll(words)[k] == Trim(words[k])
  {
    if k > 0 {
      TrimAllAt(words[1..], k - 1);
    }
  }

  /** The filter keeps exactly the `#` words, dropping no occurrence of one. */
  lemma {:induction false} HashWordsMembers(words: seq<string>, w: string)
    ensures w in HashWords(words) <==> w in words && IsHashWord(w)
  {
    if words != [] {
      HashWordsMembers(words[1..], w);
      assert words == [words[0]] + words[1..];
    }
  }

  /** A tag survives the normalise-and-drop-null step exactly when some word normalises to it. */
  lemma {:induction false} NormalizeAllMembers(words: seq<string>, t: string)
    ensures t in NormalizeAll(words) <==> exists w :: w in words && NormalizeHashtag(w) == Some(t)
  {
    if words != [] {
      var w0 := words[0];
      NormalizeAllMembers(words[1..], t);
      var h: seq<string> := match NormalizeHashtag(w0) case None => [] case Some(x) => [x];
      assert NormalizeAll(words) == h + NormalizeAll(words[1..]);
      if t in NormalizeAll(words[1..]) {
        var w :| w in words[1..] && NormalizeHashtag(w) == Some(t);
        assert w in words;
      }
      if t !in NormalizeAll(words) {
        forall w | w in words ensures NormalizeHashtag(w) != Some(t) {
          if w != w0 { assert w in words[1..]; }
        }
      }
    }
  }

  lemma TagsOfAppend(x: seq<string>, y: seq<string>)
    ensures TagsOf(x + y) == TagsOf(x) + TagsOf(y)
  {
    TrimAllAppend(x, y);
    HashWordsAppend(TrimAll(x), TrimAll(y));
    NormalizeAllAppend(HashWords(TrimAll(x)), HashWords(TrimAll(y)));
  }

  lemma {:induction false} TrimAllAppend(x: seq<string>, y: seq<string>)
    ensures TrimAll(x + y) == TrimAll(x) + TrimAll(y)
  {
    if x == [] {
      assert x + y == y;
    } else {
      assert (x + y)[0] == x[0] && (x + y)[1..] == x[1..] + y;
      TrimAllAppend(x[1..], y);
    }
  }

  lemma {:induction false} HashWordsAppend(x: seq<string>, y: seq<string>)
    ensures HashWords(x + y) == HashWords(x) + HashWords(y)
  {
    if x == [] {
      assert x + y == y;
    } else {
      assert (x + y)[0] == x[0] && (x + y)[1..] == x[1..] + y;
      HashWordsAppend(x[1..], y);
    }
  }

  lemma NormalizeAllAppend(x: seq<string>, y: seq<string>)
    ensures NormalizeAll(x + y) == NormalizeAll(x) + NormalizeAll(y)
  {
    MapNonNullAppend(NormalizeHashtag, x, y);
  }

  lemma {:induction false} MapNonNullAppend<A, B>(f: A -> Option<B>, x: seq<A>, y: seq<A>)
    ensures MapNonNull(f, x + y) == MapNonNull(f, x) + MapNonNull(f, y)
  {
    if x == [] {
      assert x + y == y;
    } else {
      assert (x + y)[0] == x[0] && (x + y)[1..] == x[1..] + y;
      MapNonNullAppend(f, x[1..], y);
    }
  }

  /** A piece that is not a `#` word (an empty piece, `#` alone, a word without `#` in front) yields no tag. */
  lemma TagsOfNonHashWord(w: string)
    requires NoWhitespace(w) && !IsHashWord(w)
    ensures TagsOf([w]) == []
  {
    TrimUnpadded(w);
    assert [w][1..] == [];
    assert TrimAll([w]) == [w];
    assert HashWords([w]) == [];
  }

  lemma TagsOfHashWord(w: string)
    requires NoWhitespace(w) && IsHashWord(w)
    ensures TagsOf([w]) == if NormalizeHashtag(w).Some? then [NormalizeHashtag(w).value] else []
  {
    TrimUnpadded(w);
    assert [w][1..] == [];
    assert TrimAll([w]) == [w];
    assert HashWords([w]) == [w];
    assert MapNonNull(NormalizeHashtag, [w][1..]) == [];
  }

  // ---------------------------------------------------------------------------
  // Array.from(new Set(tags))

  /** `Array.from(new Set(s))`: each distinct element once, at the place of its first occurrence. */
  function Dedupe(s: seq<string>): (r: seq<string>)
    ensures NoDuplicates(r)
    ensures forall x :: x in r <==> x in s
  {
    if s == [] then []
    else
      var d := Dedupe(s[..|s| - 1]);
      var last := s[|s| - 1];
      assert forall x :: x in s <==> x in s[..|s| - 1] || x == last by {
        assert s == s[..|s| - 1] + [last];
      }
      if last in d then d else d + [last]
  }

  /** The index of the first occurrence of `x` in `s`. */
  function IndexOf<T(==)>(s: seq<T>, x: T): (i: nat)
    requires x in s
    ensures i < |s| && s[i] == x
    ensures forall j :: 0 <= j < i ==> s[j] != x
  {
    if s[0] == x then 0 else 1 + IndexOf(s[1..], x)
  }

  lemma IndexOfPrefix<T>(s: seq<T>, e: T, x: T)
    requires x in s
    ensures IndexOf(s + [e], x) == IndexOf(s, x)
  {
    var i, k := IndexOf(s + [e], x), IndexOf(s, x);
    assert (s + [e])[k] == x;
  }

  /** Distinct elements keep the order of their first occurrences. */
  lemma {:induction false} DedupeKeepsFirstOccurrenceOrder(s: seq<string>)
    ensures forall i, j :: 0 <= i < j < |Dedupe(s)| ==> IndexOf(s, Dedupe(s)[i]) < IndexOf(s, Dedupe(s)[j])
  {
    if s != [] {
      var init, last := s[..|s| - 1], s[|s| - 1];
      assert s == init + [last];
      DedupeKeepsFirstOccurrenceOrder(init);
      var d := Dedupe(init);
      forall x | x in d ensures IndexOf(s, x) == IndexOf(init, x) {
        IndexOfPrefix(init, last, x);
      }
      if last !in d {
        assert IndexOf(s, last) == |init|;
        forall i, j | 0 <= i < j < |Dedupe(s)|
          ensures IndexOf(s, Dedupe(s)[i]) < IndexOf(s, Dedupe(s)[j])
        {
          if j == |d| {
            assert Dedupe(s)[i] == d[i];
          } else {
            assert Dedupe(s)[i] == d[i] && Dedupe(s)[j] == d[j];
          }
        }
      }
    }
  }

  /** A sequence without duplicates is its own deduplication. */
  lemma {:induction false} DedupeOfDistinct(s: seq<string>)
    requires NoDuplicates(s)
    ensures Dedupe(s) == s
  {
    if s != [] {
      var init, last := s[..|s| - 1], s[|s| - 1];
      assert s == init + [last];
      DedupeOfDistinct(init);
      assert last !in init;
    }
  }

  /** Deduplicating a prefix first does not change the overall deduplication. */
  lemma {:induction false} DedupeAbsorbsPrefix(x: seq<string>, y: seq<string>)
    ensures Dedupe(Dedupe(x) + y) == Dedupe(x + y)
  {
    if y == [] {
      assert x + y == x && Dedupe(x) + y == Dedupe(x);
      DedupeOfDistinct(Dedupe(x));
    } else {
      var y', e := y[..|y| - 1], y[|y| - 1];
      assert Dedupe(x) + y == (Dedupe(x) + y') + [e];
      assert x + y == (x + y') + [e];
      DedupeAbsorbsPrefix(x, y');
      assert (Dedupe(x) + y)[..|Dedupe(x) + y| - 1] == Dedupe(x) + y';
      assert (x + y)[..|x + y| - 1] == x + y';
    }
  }

  // ---------------------------------------------------------------------------
  // parseHashtags

  /**
   * `parseHashtags`: the distinct canonical tags of the `#` words of the
   * input, in order of first occurrence.
   */
  function ParseHashtags(input: string): (r: seq<string>)
    ensures NoDuplicates(r)
    ensures forall k :: 0 <= k < |r| ==> IsTag(r[k])
  {
    if Trim(input) == [] then []
    else
      var c := Candidates(input);
      CandidatesAreTags(input);
      DedupeKeepsTags(c);
      Dedupe(c)
  }

  lemma DedupeKeepsTags(s: seq<string>)
    requires forall k :: 0 <= k < |s| ==> IsTag(s[k])
    ensures forall k :: 0 <= k < |Dedupe(s)| ==> IsTag(Dedupe(s)[k])
  {
    forall k | 0 <= k < |Dedupe(s)| ensures IsTag(Dedupe(s)[k]) {
      var j := IndexOf(s, Dedupe(s)[k]);
    }
  }

  lemma CandidatesAreTags(input: string)
    ensures forall k :: 0 <= k < |Candidates(input)| ==> IsTag(Candidates(input)[k])
  {
    MapNonNullTags(HashWords(TrimAll(Split(input))));
  }

  lemma {:induction false} MapNonNullTags(words: seq<string>)
    ensures forall k :: 0 <= k < |NormalizeAll(words)| ==> IsTag(NormalizeAll(words)[k])
  {
    if words != [] {
      MapNonNullTags(words[1..]);
      var n := NormalizeHashtag(words[0]);
      var h: seq<string> := match n case None => [] case Some(t) => [t];
      assert NormalizeAll(words) == h + NormalizeAll(words[1..]);
      forall k | 0 <= k < |NormalizeAll(words)| ensures IsTag(NormalizeAll(words)[k]) {
        if k >= |h| { assert NormalizeAll(words)[k] == NormalizeAll(words[1..])[k - |h|]; }
      }
    }
  }

  /** The early `return []` for blank input agrees with the chain: blank input has no `#` words. */
  lemma ParseHashtagsIsDedupedCandidates(input: string)
    ensures ParseHashtags(input) == Dedupe(Candidates(input))
  {
    if Trim(input) == [] {
      if input == [] {
        assert Split(input) == [""];
      } else {
        assert AllWhitespace(input[1..]);
        assert TrimStart(input[1..]) == [];
        assert Split(input) == [""] + [""];
      }
      TagsOfNonHashWord("");
      TagsOfAppend([""], [""]);
    }
  }

  /** Empty or whitespace-only input has no hashtags. */
  lemma ParseHashtagsBlank(input: string)
    requires AllWhitespace(input)
    ensures ParseHashtags(input) == []
  {
  }

  /** The tags of a list of pieces are exactly the normalisations of its `#` words. */
  lemma {:induction false} TagsOfMembers(words: seq<string>, t: string)
    requires forall k :: 0 <= k < |words| ==> NoWhitespace(words[k])
    ensures t in TagsOf(words) <==>
              exists w :: w in words && IsHashWord(w) && NormalizeHashtag(w) == Some(t)
  {
    if words != [] {
      var w0 := words[0];
      assert words == [w0] + words[1..];
      TagsOfAppend([w0], words[1..]);
      TagsOfMembers(words[1..], t);
      if IsHashWord(w0) { TagsOfHashWord(w0); } else { TagsOfNonHashWord(w0); }
      if t in TagsOf(words[1..]) {
        var w :| w in words[1..] && IsHashWord(w) && NormalizeHashtag(w) == Some(t);
        assert w in words;
      }
      if t !in TagsOf(words) {
        forall w | w in words && IsHashWord(w) ensures NormalizeHashtag(w) != Some(t) {
          if w != w0 { assert w in words[1..]; }
        }
      }
    }
  }

  /**
   * A tag is in `parseHashtags(input)` exactly when some whitespace-separated
   * piece of the input starts with `#`, is longer than one character and
   * normalises to that tag.
   */
  lemma ParseHashtagsMembers(input: string, t: string)
    ensures t in ParseHashtags(input) <==>
              exists w :: w in Split(input) && IsHashWord(w) && NormalizeHashtag(w) == Some(t)
  {
    ParseHashtagsIsDedupedCandidates(input);
    SplitPieces(input);
    TagsOfMembers(Split(input), t);
  }

  /** The tags come out in the order of their first occurrence in the input. */
  lemma ParseHashtagsOrder(input: string)
    ensures forall i, j :: 0 <= i < j < |ParseHashtags(input)| ==>
              IndexOf(Candidates(input), ParseHashtags(input)[i]) < IndexOf(Candidates(input), ParseHashtags(input)[j])
  {
    ParseHashtagsIsDedupedCandidates(input);
    DedupeKeepsFirstOccurrenceOrder(Candidates(input));
  }

  /** The tags of text joined by a space are the tags of either side. */
  lemma CandidatesAtSpace(a: string, b: string)
    ensures Candidates(a + " " + b) == TagsOf(Split(TrimEnd(a))) + TagsOf(Split(TrimStart(b)))
  {
    SplitAtWhitespace(a, " ", b);
    TagsOfAppend(Split(TrimEnd(a)), Split(TrimStart(b)));
  }

  lemma CandidatesSkipWord(a: string, w: string, b: string)
    requires w != [] && NoWhitespace(w) && !IsHashWord(w)
    ensures Candidates(a + " " + w + " " + b) == Candidates(a + " " + b)
  {
    var rest := w + " " + b;
    SpaceRegroup(a, w, b);
    CandidatesAtSpace(a, rest);
    assert TrimStart(rest) == rest;
    WordBeforeSpaceSkipped(w, b);
    CandidatesAtSpace(a, b);
  }

  lemma WordBeforeSpaceSkipped(w: string, b: string)
    requires w != [] && NoWhitespace(w) && !IsHashWord(w)
    ensures Candidates(w + " " + b) == TagsOf(Split(TrimStart(b)))
  {
    CandidatesAtSpace(w, b);
    assert TrimEnd(w) == w;
    SplitWord(w);
    TagsOfNonHashWord(w);
  }

  /** The regrouping `ParseHashtagsSkipsWord` needs, kept apart from `Split` terms like `SplitOffFirst`. */
  lemma SpaceRegroup(a: string, w: string, b: string)
    ensures a + " " + w + " " + b == a + " " + (w + " " + b)
  {
  }

  /** A word that does not start with `#`, or is `#` alone, contributes nothing. */
  lemma ParseHashtagsSkipsWord(a: string, w: string, b: string)
    requires w != [] && NoWhitespace(w) && !IsHashWord(w)
    ensures ParseHashtags(a + " " + w + " " + b) == ParseHashtags(a + " " + b)
  {
    CandidatesSkipWord(a, w, b);
    ParseHashtagsIsDedupedCandidates(a + " " + w + " " + b);
    ParseHashtagsIsDedupedCandidates(a + " " + b);
  }

  /** Trailing whitespace adds only an empty piece, so it adds no tags. */
  lemma CandidatesTrimEnd(a: string)
    ensures TagsOf(Split(TrimEnd(a))) == Candidates(a)
  {
    var v := TrimEndSplit(a);
    var a' := TrimEnd(a);
    if v != [] {
      assert a == a' + v + "";
      SplitAtWhitespace(a', v, "");
      assert TrimEnd(a') == a';
      assert TrimStart("") == "";
      TagsOfNonHashWord("");
      TagsOfAppend(Split(a'), [""]);
    } else {
      assert a == a';
    }
  }
}
