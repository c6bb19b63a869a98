# Hashtag parsing and post validation

This project models the two pure library files of the post composer's front end.

- `src/frontend/src/lib/hashtags.ts` holds two functions:
  - `normalizeHashtag` canonicalises one tag. It strips every `#`, trims, lowercases, keeps only `[a-z0-9_]`, and gives null when nothing is left.
  - `parseHashtags` extracts tags from free text. It splits on whitespace runs, keeps the `#` words longer than one character, normalises them, drops the nulls and removes duplicates in first-seen order.
- `src/frontend/src/lib/validation.ts` holds `validatePost`. It accepts or rejects a post from its text and its optional media file. Four checks run in a fixed order, and the first failure decides the error message.

The model also covers the line in `PostComposer.tsx` that appends the parsed tags of the hashtag field to the post text. It proves what a later scan of the combined text yields.

All of this is pure code, so the model is datatypes, recursive functions and lemmas:

- **`Text`** (`text.dfy`) holds the JavaScript string primitives the code relies on.
  - `trim()` and the `\s` class share one whitespace set: the ECMAScript WhiteSpace and LineTerminator code points.
  - It also models `toLowerCase()` and `startsWith()`.
- **`Hashtags`** (`hashtags.dfy`) holds:
  - the normaliser;
  - `split(/\s+/)`, with JavaScript's empty first and last pieces when the text starts or ends with whitespace;
  - the filter-map chain;
  - `Array.from(new Set(...))` as `Dedupe`;
  - `ParseHashtags`.
- **`Validation`** (`validation.dfy`) holds:
  - the validator over a `MediaFile` descriptor (size in bytes and MIME type);
  - an error datatype with the source's four messages;
  - the `{ valid, error? }` result record.
- **`Composer`** (`composer.dfy`) holds the content composition of `PostComposer.tsx` and its round-trip lemmas.
- **`Scenarios`** (`scenarios.dfy`) holds a worked example with a concrete input.
- **`Wrappers`** (`wrappers.dfy`) holds `Option`, which stands for JavaScript's `null`.

The validator returns the record `{ valid, error? }` with an English message, not a typed error. The model keeps both levels. `ValidatePost` returns one constructor per rule, and `ToReport` builds the record with the code's exact messages.

An explicit hashtag field and the tags written in the text are combined by appending the field's parsed tags to the text. `Composer.ComposedFieldHashtags` proves what a later scan of that text yields: the text's own tags followed by the field's tags, with duplicates removed. This is their union in first-seen order.

## Model

| member | source | states |
|---|---|---|
| Text.IsWhitespaceTable | src/frontend/src/lib/hashtags.ts:6 | `\s`, and with it `trim()`, matches exactly the 25 ECMAScript WhiteSpace and LineTerminator code points; U+180E and U+200B are not among them |
| Text.Trim | src/frontend/src/lib/hashtags.ts:18 | `trim()` is empty exactly when the text is all whitespace, and a non-empty result has no whitespace at either end |
| Text.TrimDecomposition | src/frontend/src/lib/validation.ts:8 | every text is leading whitespace, then its trimmed form, then trailing whitespace |
| Text.TrimIgnoresPadding | src/frontend/src/lib/validation.ts:8 | adding whitespace at either end does not change the trimmed text |
| Text.TrimUnpadded | src/frontend/src/lib/validation.ts:8 | a text with no whitespace at either end is its own trimmed form |
| Text.LowerChar | src/frontend/src/lib/hashtags.ts:18 | `A` to `Z` become the matching `a` to `z`, every other character is unchanged |
| Text.Lower | src/frontend/src/lib/hashtags.ts:18 | same length, and each character is lowercased as `LowerChar` says |
| Text.LowerIdempotent | src/frontend/src/lib/hashtags.ts:18 | lowercasing twice is lowercasing once |
| Hashtags.RemoveHashes | src/frontend/src/lib/hashtags.ts:18 | no `#` is left and the result is no longer than the input |
| Hashtags.RemoveHashesWithoutHash | src/frontend/src/lib/hashtags.ts:18 | a text without `#` is left unchanged |
| Hashtags.RemoveHashesAppend | src/frontend/src/lib/hashtags.ts:18 | removal works piece by piece, so the other characters stay in their order |
| Hashtags.RemoveHashesDropsHash | src/frontend/src/lib/hashtags.ts:18 | a `#` anywhere disappears and takes no other character with it |
| Hashtags.KeepTagChars | src/frontend/src/lib/hashtags.ts:23 | only `[a-z0-9_]` characters are left |
| Hashtags.KeepTagCharsEmptyIff | src/frontend/src/lib/hashtags.ts:23-25 | the filter leaves nothing exactly when no character is in `[a-z0-9_]` |
| Hashtags.CleaningKeepsTagChars | src/frontend/src/lib/hashtags.ts:18-23 | removing `#` and trimming before lowercasing never changes which tag characters survive |
| Hashtags.NormalizeHashtag | src/frontend/src/lib/hashtags.ts:16-26 | a result is a non-empty `[a-z0-9_]` string, equal to the tag characters of the lowercased input; null exactly when there are none |
| Hashtags.NormalizeHashtagNullIff | src/frontend/src/lib/hashtags.ts:20-25 | null exactly when no character of the input lowercases to `[a-z0-9_]` |
| Hashtags.NormalizeDeterminedByTagChars | src/frontend/src/lib/hashtags.ts:16-26 | two tags with the same lowercased tag characters normalise alike |
| Hashtags.NormalizeCanonical | src/frontend/src/lib/hashtags.ts:16-26 | a canonical tag normalises to itself, with or without a leading `#` |
| Hashtags.NormalizeIdempotent | src/frontend/src/lib/hashtags.ts:16-26 | normalising a normalised tag (or `#` plus it) gives it back |
| Hashtags.NormalizeIgnoresCase | src/frontend/src/lib/hashtags.ts:18 | lowercasing the input first changes nothing |
| Hashtags.NormalizeIgnoresNonTagChar | src/frontend/src/lib/hashtags.ts:23 | inserting a character outside `[a-z0-9_]` (after lowercasing) anywhere changes nothing |
| Hashtags.NormalizeMusicExample | src/frontend/src/lib/hashtags.ts:16-26 | `#Music` and `#MUSIC!!` both normalise to `music` |
| Hashtags.Split | src/frontend/src/lib/hashtags.ts:6 | there is always at least one piece, as `''.split(/\s+/)` gives `['']` |
| Hashtags.SplitPieces | src/frontend/src/lib/hashtags.ts:6 | no piece holds whitespace; the first piece is empty exactly when the text is empty or starts with whitespace |
| Hashtags.SplitWord | src/frontend/src/lib/hashtags.ts:6 | a word without whitespace is a single piece |
| Hashtags.SplitAtWhitespace | src/frontend/src/lib/hashtags.ts:6 | the text on either side of a whitespace run splits independently |
| Hashtags.TrimAll | src/frontend/src/lib/hashtags.ts:7 | one trimmed word per piece |
| Hashtags.TrimAllAt | src/frontend/src/lib/hashtags.ts:7 | the k-th word is the k-th piece trimmed |
| Hashtags.HashWordIsFilterCondition | src/frontend/src/lib/hashtags.ts:8 | `IsHashWord` holds exactly when the word starts with `#` and is longer than one character |
| Hashtags.HashWordsMembers | src/frontend/src/lib/hashtags.ts:8 | a word passes the filter exactly when it is one of the input words and starts with `#` followed by something |
| Hashtags.NormalizeAllMembers | src/frontend/src/lib/hashtags.ts:9-10 | a tag is in the normalised, null-free list exactly when some input word normalises to it |
| Hashtags.MapNonNullTags | src/frontend/src/lib/hashtags.ts:9-10 | every element left after dropping the nulls is a canonical tag |
| Hashtags.TagsOfAppend | src/frontend/src/lib/hashtags.ts:7-10 | the trim, filter, normalise, drop-null chain works piece by piece |
| Hashtags.TagsOfNonHashWord | src/frontend/src/lib/hashtags.ts:8 | a piece that is not `#` followed by something yields no tag |
| Hashtags.TagsOfHashWord | src/frontend/src/lib/hashtags.ts:7-10 | a `#` word yields its normalised tag, or nothing when that is null |
| Hashtags.Dedupe | src/frontend/src/lib/hashtags.ts:13 | no duplicates, and exactly the same elements as the input |
| Hashtags.DedupeKeepsFirstOccurrenceOrder | src/frontend/src/lib/hashtags.ts:13 | the kept elements appear in the order of their first occurrence in the input |
| Hashtags.DedupeOfDistinct | src/frontend/src/lib/hashtags.ts:13 | a sequence without duplicates is unchanged |
| Hashtags.DedupeAbsorbsPrefix | src/frontend/src/lib/hashtags.ts:13 | removing duplicates from a prefix first changes nothing |
| Hashtags.ParseHashtags | src/frontend/src/lib/hashtags.ts:1-14 | the result has no duplicates and every element is a canonical tag |
| Hashtags.ParseHashtagsIsDedupedCandidates | src/frontend/src/lib/hashtags.ts:2-13 | the result is the deduplicated tags of all pieces, blank input included |
| Hashtags.ParseHashtagsBlank | src/frontend/src/lib/hashtags.ts:2 | blank input gives no tags |
| Hashtags.ParseHashtagsMembers | src/frontend/src/lib/hashtags.ts:5-13 | a tag is in the result exactly when some `#` word of the input normalises to it |
| Hashtags.ParseHashtagsOrder | src/frontend/src/lib/hashtags.ts:13 | tags appear in the order of their first occurrence in the text |
| Hashtags.ParseHashtagsSkipsWord | src/frontend/src/lib/hashtags.ts:6-8 | a word with a space on each side that is not `#` followed by something can be removed, together with one of the spaces, without changing the result |
| Composer.HashPrefixed | src/frontend/src/components/posts/PostComposer.tsx:83 | one word per tag, the k-th being `#` followed by the k-th tag |
| Composer.JoinWithSpaces | src/frontend/src/components/posts/PostComposer.tsx:83 | the joined text begins with the first word |
| Composer.SplitJoin | src/frontend/src/components/posts/PostComposer.tsx:83 | splitting the space-joined non-empty words gives the words back |
| Composer.TagsOfHashPrefixed | src/frontend/src/components/posts/PostComposer.tsx:83 | the `#` words of canonical tags yield those tags |
| Composer.JoinedTagsRoundTrip | src/frontend/src/components/posts/PostComposer.tsx:81-83 | parsing the joined `#` words of distinct canonical tags gives the tags back |
| Composer.ComposeContent | src/frontend/src/components/posts/PostComposer.tsx:82-84 | without tags the content is kept as it is; the composed text always begins with the content |
| Composer.ComposedContentHashtags | src/frontend/src/components/posts/PostComposer.tsx:82-84 | the tags of the composed post are the text's tags followed by the appended ones, duplicates removed |
| Composer.ComposedFieldHashtags | src/frontend/src/components/posts/PostComposer.tsx:81-84 | the same with the appended tags taken from the hashtag field; every field tag is found in the post |
| Scenarios.RepeatedTagExample | src/frontend/src/lib/hashtags.ts:1-14 | `hi #music #Music #MUSIC` gives just `music` |
| Validation.Message | src/frontend/src/lib/validation.ts:14-42 | every error has a non-empty message |
| Validation.MessageInjective | src/frontend/src/lib/validation.ts:14-42 | the four messages are pairwise different, so the message tells which rule failed |
| Validation.SupportedMediaTypeIff | src/frontend/src/lib/validation.ts:36-39 | a type is supported exactly when it is `image/` or `video/` followed by anything |
| Validation.ToReport | src/frontend/src/lib/validation.ts:1-4 | `valid` holds exactly when there is no error, and an invalid result always carries a non-empty message |
| Validation.ValidatePost | src/frontend/src/lib/validation.ts:6-48 | valid exactly when there is content or media, the trimmed content is at most 5000 characters, and any media is at most 50 MiB and an image or a video |
| Validation.FirstViolationWins | src/frontend/src/lib/validation.ts:11-47 | the error is the first broken rule in check order; a post breaking none is valid |
| Validation.EmptyPostReported | src/frontend/src/lib/validation.ts:11-16 | blank content without media is an empty post |
| Validation.TooLongBeforeMedia | src/frontend/src/lib/validation.ts:19-24 | over-long content is reported whatever the media |
| Validation.TooLargeBeforeType | src/frontend/src/lib/validation.ts:27-34 | an oversized file is reported before its type is looked at |
| Validation.PaddingIgnored | src/frontend/src/lib/validation.ts:8 | leading and trailing whitespace never changes the verdict |
| Validation.MediaOnlyPostValid | src/frontend/src/lib/validation.ts:11-47 | blank content with an acceptable media file is valid |
| Validation.ContentLengthBoundary | src/frontend/src/lib/validation.ts:19 | 5000 characters pass (also when padded) and 5001 fail: the comparison is strict |
| Validation.MediaSizeBoundary | src/frontend/src/lib/validation.ts:28-29 | 52428800 bytes pass and 52428801 fail |
| Validation.MediaTypeExamples | src/frontend/src/lib/validation.ts:36-44 | `image/png` and `video/mp4` pass; `audio/mpeg` and an empty type are unsupported |

## Left out

- The post store, hashtag index, blob manager and service layer are not part of this model. Their code is not among the source files.
- Most of `PostComposer.tsx` is left out as UI and I/O: React state and hooks, toasts, the `FileReader` preview, blob upload and progress reporting, and the call to create the post. Only the content composition at lines 81-84 is modelled.
- The second MIME check in `handleFileSelect` (`PostComposer.tsx:30-36`) is left out. It repeats the `image/` and `video/` prefix test of `IsSupportedMediaType` at the moment a file is picked.
- A browser `File` is reduced to the two fields the validator reads: `size` and `type`. A `null` file is `None`.
- Hashtags.NormalizeHashtag: `toLowerCase()` is modelled for ASCII letters only. Full Unicode lowercasing differs in what survives the `[a-z0-9_]` filter for exactly two characters: U+0130 (İ lowercases to `i` plus a combining dot) and U+212A (the Kelvin sign lowercases to `k`). The model drops both.
- Validation.ValidatePost: `.length` is modelled as the number of characters. JavaScript counts UTF-16 code units, so a character outside the Basic Multilingual Plane counts twice in the source's 5000-character limit.
