/**
 * Worked scenarios of the hashtag parser, proved for the concrete inputs
 * they name.
 */
module Scenarios {
  import opened Wrappers
  import opened Text
  import opened Hashtags
  import opened Composer

  /** Every spelling of `#music` that differs only in letter case normalises to `music`. */
  lemma MusicVariant(w: string)
    requires Lower(w) == "#" + "music"
    ensures NormalizeHashtag(w) == Some("music")
  {
    NormalizeIgnoresCase(w);
    NormalizeCanonical("music");
  }

  /** `"hi #music #Music #MUSIC"` splits into its four words. */
  lemma ExampleWords(input: string, words: seq<string>)
    requires input == "hi #music #Music #MUSIC"
    requires words == ["hi", "#music", "#Music", "#MUSIC"]
    ensures Split(input) == words
  {
    assert JoinWithSpaces(words[3..]) == words[3];
    assert JoinWithSpaces(words[2..]) == words[2] + " " + words[3];
    assert JoinWithSpaces(words[1..]) == words[1] + " " + words[2] + " " + words[3];
    assert input == JoinWithSpaces(words);
    forall k | 0 <= k < |words| ensures words[k] != [] && NoWhitespace(words[k]) { }
    SplitJoin(words);
  }

  /** The word `w0` yields no tag and each of `w1`, `w2`, `w3` yields `t`. */
  lemma ExampleWordTags(w0: string, w1: string, w2: string, w3: string, t: string)
    requires NoWhitespace(w0) && !IsHashWord(w0)
    requires NoWhitespace(w1) && IsHashWord(w1) && NormalizeHashtag(w1) == Some(t)
    requires NoWhitespace(w2) && IsHashWord(w2) && NormalizeHashtag(w2) == Some(t)
    requires NoWhitespace(w3) && IsHashWord(w3) && NormalizeHashtag(w3) == Some(t)
    ensures TagsOf([w0]) == [] && TagsOf([w1]) == [t] && TagsOf([w2]) == [t] && TagsOf([w3]) == [t]
  {
    TagsOfNonHashWord(w0);
    TagsOfHashWord(w1);
    TagsOfHashWord(w2);
    TagsOfHashWord(w3);
  }

  /**
   * `TagsOfAppend` with both sides already known: taking the known tags as
   * `requires` keeps each step of `ExampleCandidates` from unfolding `TagsOf` again.
   */
  lemma TagsOfConcat(x: seq<string>, y: seq<string>, tx: seq<string>, ty: seq<string>)
    requires TagsOf(x) == tx && TagsOf(y) == ty
    ensures TagsOf(x + y) == tx + ty
  {
    TagsOfAppend(x, y);
  }

  /** A word without a tag followed by three words with the same tag yields that tag three times. */
  lemma ExampleCandidates(w0: string, w1: string, w2: string, w3: string, t: string)
    requires TagsOf([w0]) == [] && TagsOf([w1]) == [t] && TagsOf([w2]) == [t] && TagsOf([w3]) == [t]
    ensures TagsOf([w0] + [w1] + [w2] + [w3]) == [t, t, t]
  {
    TagsOfConcat([w0], [w1], [], [t]);
    TagsOfConcat([w0] + [w1], [w2], [t], [t]);
    TagsOfConcat([w0] + [w1] + [w2], [w3], [t, t], [t]);
  }

  /**
   * The word list written as concatenations is the display list; kept apart because
   * display lists inside `TagsOf` terms are costly for the solver.
   */
  lemma FourWords(w0: string, w1: string, w2: string, w3: string)
    ensures [w0] + [w1] + [w2] + [w3] == [w0, w1, w2, w3]
  {
  }

  /** The shape of each word of the example. */
  lemma ExampleWordFacts(words: seq<string>)
    requires words == ["hi", "#music", "#Music", "#MUSIC"]
    ensures NoWhitespace(words[0]) && !IsHashWord(words[0])
    ensures forall k :: 1 <= k < 4 ==> NoWhitespace(words[k]) && IsHashWord(words[k]) && Lower(words[k]) == "#" + "music"
  {
  }

  /** A tag repeated three times is kept once. */
  lemma DedupeRepeated(t: string)
    ensures Dedupe([t, t, t]) == [t]
  {
    assert [t][..0] == [];
    assert Dedupe([t]) == [t];
    assert [t, t][..1] == [t];
    assert Dedupe([t, t]) == [t];
    assert [t, t, t][..2] == [t, t];
  }

  /** Repetition in the text, in any letter case, never yields a duplicate tag: the example gives `["music"]`. */
  lemma RepeatedTagExample(input: string)
    requires input == "hi #music #Music #MUSIC"
    ensures ParseHashtags(input) == ["music"]
  {
    var words := ["hi", "#music", "#Music", "#MUSIC"];
    ExampleWords(input, words);
    ExampleWordFacts(words);
    MusicVariant(words[1]);
    MusicVariant(words[2]);
    MusicVariant(words[3]);
    ExampleWordTags(words[0], words[1], words[2], words[3], "music");
    ExampleCandidates(words[0], words[1], words[2], words[3], "music");
    FourWords(words[0], words[1], words[2], words[3]);
    ParseHashtagsIsDedupedCandidates(input);
    DedupeRepeated("music");
  }
}
