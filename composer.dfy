/**
 * The text the post composer submits: the post content followed by the tags
 * of its separate hashtag field, each re-serialised as `#tag` and joined by
 * single spaces.
 */
module Composer {
  import opened Text
  import opened Hashtags

  /** `tags.map(tag => `#${tag}`)`: one `#` word per tag, in order. */
  function HashPrefixed(tags: seq<string>): (r: seq<string>)
    ensures |r| == |tags|
    ensures forall k :: 0 <= k < |r| ==> r[k] == "#" + tags[k]
  {
    if tags == [] then [] else ["#" + tags[0]] + HashPrefixed(tags[1..])
  }

  /** `words.join(' ')`. */
  function JoinWithSpaces(words: seq<string>): (r: string)
    ensures words != [] ==> StartsWith(r, words[0])
  {
    if words == [] then ""
    else if |words| == 1 then words[0]
    else words[0] + " " + JoinWithSpaces(words[1..])
  }

  /** The full content built from the content field and the parsed hashtag field. */
  function ComposeContent(content: string, tags: seq<string>): (r: string)
    ensures tags == [] ==> r == content
    ensures StartsWith(r, content)
  {
    if |tags| > 0 then content + " " + JoinWithSpaces(HashPrefixed(tags)) else content
  }

  /** A canonical tag written as `#tag` is one `#` word without whitespace. */
  lemma HashWordOfTag(t: string)
    requires IsTag(t)
    ensures IsHashWord("#" + t) && NoWhitespace("#" + t)
  {
    var w := "#" + t;
    forall i | 0 <= i < |w| ensures !IsWhitespace(w[i]) {
      if i > 0 { assert w[i] == t[i - 1]; assert IsTagChar(t[i - 1]); }
    }
  }

  lemma TagsOfTagWord(t: string)
    requires IsTag(t)
    ensures TagsOf(["#" + t]) == [t]
  {
    HashWordOfTag(t);
    TagsOfHashWord("#" + t);
    NormalizeCanonical(t);
  }

  /** Each canonical tag becomes one `#` word without whitespace. */
  lemma HashPrefixedWords(tags: seq<string>)
    requires forall k :: 0 <= k < |tags| ==> IsTag(tags[k])
    ensures forall k :: 0 <= k < |tags| ==>
              HashPrefixed(tags)[k] == "#" + tags[k] && IsHashWord(HashPrefixed(tags)[k])
              && NoWhitespace(HashPrefixed(tags)[k])
  {
    forall k | 0 <= k < |tags|
      ensures HashPrefixed(tags)[k] == "#" + tags[k] && IsHashWord(HashPrefixed(tags)[k])
              && NoWhitespace(HashPrefixed(tags)[k])
    {
      HashWordOfTag(tags[k]);
    }
  }

  lemma {:induction false} JoinStartsWithFirst(words: seq<string>)
    requires words != [] && words[0] != []
    ensures JoinWithSpaces(words) != [] && JoinWithSpaces(words)[0] == words[0][0]
  {
  }

  /** Splitting words joined by single spaces gives the words back. */
  lemma {:induction false} SplitJoin(words: seq<string>)
    requires words != []
    requires forall k :: 0 <= k < |words| ==> words[k] != [] && NoWhitespace(words[k])
    ensures Split(JoinWithSpaces(words)) == words
  {
    if |words| == 1 {
      SplitWord(words[0]);
    } else {
      var rest := JoinWithSpaces(words[1..]);
      SplitAtWhitespace(words[0], " ", rest);
      assert TrimEnd(words[0]) == words[0];
      SplitWord(words[0]);
      JoinStartsWithFirst(words[1..]);
      assert TrimStart(rest) == rest;
      SplitJoin(words[1..]);
      assert words == [words[0]] + words[1..];
    }
  }

  /** The `#` words of canonical tags yield exactly those tags, in order. */
  lemma {:induction false} TagsOfHashPrefixed(tags: seq<string>)
    requires forall k :: 0 <= k < |tags| ==> IsTag(tags[k])
    ensures TagsOf(HashPrefixed(tags)) == tags
  {
    if tags != [] {
      var w := "#" + tags[0];
      assert HashPrefixed(tags) == [w] + HashPrefixed(tags[1..]);
      TagsOfAppend([w], HashPrefixed(tags[1..]));
      TagsOfTagWord(tags[0]);
      TagsOfHashPrefixed(tags[1..]);
      assert tags == [tags[0]] + tags[1..];
    }
  }

  lemma CandidatesOfJoinedTags(tags: seq<string>)
    requires tags != []
    requires forall k :: 0 <= k < |tags| ==> IsTag(tags[k])
    ensures Candidates(JoinWithSpaces(HashPrefixed(tags))) == tags
  {
    HashPrefixedWords(tags);
    SplitJoin(HashPrefixed(tags));
    TagsOfHashPrefixed(tags);
  }

  /**
   * Round trip: distinct canonical tags written as `#tag` words joined by
   * spaces parse back to the same tags in the same order.
   */
  lemma JoinedTagsRoundTrip(tags: seq<string>)
    requires forall k :: 0 <= k < |tags| ==> IsTag(tags[k])
    requires NoDuplicates(tags)
    ensures ParseHashtags(JoinWithSpaces(HashPrefixed(tags))) == tags
  {
    if tags != [] {
      CandidatesOfJoinedTags(tags);
      ParseHashtagsIsDedupedCandidates(JoinWithSpaces(HashPrefixed(tags)));
      DedupeOfDistinct(tags);
    }
  }

  /**
   * The hashtags of the composed content are those of the content field
   * followed by the appended tags, duplicates removed at their first
   * occurrence.
   */
  lemma ComposedContentHashtags(content: string, tags: seq<string>)
    requires forall k :: 0 <= k < |tags| ==> IsTag(tags[k])
    ensures ParseHashtags(ComposeContent(content, tags)) == Dedupe(ParseHashtags(content) + tags)
  {
    if tags == [] {
      assert ParseHashtags(content) + tags == ParseHashtags(content);
      DedupeOfDistinct(ParseHashtags(content));
    } else {
      var joined := JoinWithSpaces(HashPrefixed(tags));
      CandidatesAtSpace(content, joined);
      HashPrefixedWords(tags);
      JoinStartsWithFirst(HashPrefixed(tags));
      assert TrimStart(joined) == joined;
      CandidatesOfJoinedTags(tags);
      CandidatesTrimEnd(content);
      ParseHashtagsIsDedupedCandidates(content + " " + joined);
      ParseHashtagsIsDedupedCandidates(content);
      DedupeAbsorbsPrefix(Candidates(content), tags);
    }
  }

  /**
   * What the composer submits carries the content's own tags and every tag
   * of the hashtag field, each once, content tags first.
   */
  lemma ComposedFieldHashtags(content: string, field: string)
    ensures ParseHashtags(ComposeContent(content, ParseHashtags(field)))
              == Dedupe(ParseHashtags(content) + ParseHashtags(field))
    ensures forall t :: t in ParseHashtags(field) ==> t in ParseHashtags(ComposeContent(content, ParseHashtags(field)))
  {
    ComposedContentHashtags(content, ParseHashtags(field));
  }
}
