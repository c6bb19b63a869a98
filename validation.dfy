/**
 * Client-side validation of a post before it is submitted (`validatePost`):
 * an ordered chain of checks over the trimmed content and the optional media
 * file's declared size and MIME type, where the first failing check decides
 * the error.
 */
module Validation {
  import opened Wrappers
  import opened Text

  /** Longest accepted trimmed content, in characters. */
  const MaxContentLength: nat := 5000

  /** Largest accepted media file: 50 MiB in bytes. */
  const MaxMediaSize: nat := 50 * 1024 * 1024

  /** What the validator reads of a `File`: its size in bytes and its MIME type. */
  datatype MediaFile = MediaFile(size: nat, mimeType: string)

  /** One constructor per error message of the source. */
  datatype ValidationError = EmptyPost | ContentTooLong | MediaTooLarge | UnsupportedMediaType

  datatype ValidationResult = Valid | Invalid(error: ValidationError)

  /** The message the source attaches to each error. */
  function Message(e: ValidationError): (m: string)
    ensures |m| > 0
  {
    match e
    case EmptyPost => "Please add some content or media to your post"
    case ContentTooLong => "Post content is too long (max 5000 characters)"
    case MediaTooLarge => "Media file is too large (max 50MB)"
    case UnsupportedMediaType => "Only image and video files are supported"
  }

  /** Different errors are told apart by their messages. */
  lemma MessageInjective(e1: ValidationError, e2: ValidationError)
    ensures Message(e1) == Message(e2) <==> e1 == e2
  {
  }

  /** The `{ valid, error? }` record the source returns. */
  datatype Report = Report(valid: bool, error: Option<string>)

  /** A valid result carries no error; an invalid one always carries a non-empty message. */
  function ToReport(r: ValidationResult): (rep: Report)
    ensures rep.valid <==> rep.error.None?
    ensures rep.valid <==> r.Valid?
    ensures rep.error.Some? ==> |rep.error.value| > 0
  {
    match r
    case Valid => Report(true, None)
    case Invalid(e) => Report(false, Some(Message(e)))
  }

  /** `type.startsWith('image/') || type.startsWith('video/')`. */
  predicate IsSupportedMediaType(mimeType: string) {
    StartsWith(mimeType, "image/") || StartsWith(mimeType, "video/")
  }

  /** A supported type is `image/` or `video/` followed by anything. */
  lemma SupportedMediaTypeIff(mimeType: string)
    ensures IsSupportedMediaType(mimeType) <==>
              exists rest :: mimeType == "image/" + rest || mimeType == "video/" + rest
  {
    if IsSupportedMediaType(mimeType) {
      var rest := mimeType[6..];
      assert mimeType == mimeType[..6] + rest;
    }
  }

  /** A media file that passes both media checks. */
  predicate AcceptableMedia(m: MediaFile) {
    m.size <= MaxMediaSize && IsSupportedMediaType(m.mimeType)
  }

  /**
   * `validatePost`: valid exactly when there is some content or media, the
   * trimmed content has at most 5000 characters and any media file is at
   * most 50 MiB and an image or a video.
   */
  function ValidatePost(content: string, media: Option<MediaFile>): (r: ValidationResult)
    ensures r.Valid? <==>
              && (Trim(content) != [] || media.Some?)
              && |Trim(content)| <= MaxContentLength
              && (media.Some? ==> AcceptableMedia(media.value))
  {
    var trimmed := Trim(content);
    if trimmed == [] && media.None? then Invalid(EmptyPost)
    else if |trimmed| > MaxContentLength then Invalid(ContentTooLong)
    else if media.Some? && media.value.size > MaxMediaSize then Invalid(MediaTooLarge)
    else if media.Some? && !IsSupportedMediaType(media.value.mimeType) then Invalid(UnsupportedMediaType)
    else Valid
  }

  /** Every rule the post breaks, in the order the checks are written. */
  function Violations(content: string, media: Option<MediaFile>): seq<ValidationError>
  {
    var trimmed := Trim(content);
    (if trimmed == [] && media.None? then [EmptyPost] else [])
    + (if |trimmed| > MaxContentLength then [ContentTooLong] else [])
    + (if media.Some? && media.value.size > MaxMediaSize then [MediaTooLarge] else [])
    + (if media.Some? && !IsSupportedMediaType(media.value.mimeType) then [UnsupportedMediaType] else [])
  }

  /** First failure wins: the reported error is the first rule broken, and a post breaking none is valid. */
  lemma FirstViolationWins(content: string, media: Option<MediaFile>)
    ensures ValidatePost(content, media) ==
              if Violations(content, media) == [] then Valid else Invalid(Violations(content, media)[0])
  {
  }

  /** A post with no content and no media is always reported empty. */
  lemma EmptyPostReported(content: string)
    requires AllWhitespace(content)
    ensures ValidatePost(content, None) == Invalid(EmptyPost)
  {
  }

  /** Over-long content is reported before an oversized or unsupported media file. */
  lemma TooLongBeforeMedia(content: string, media: MediaFile)
    requires |Trim(content)| > MaxContentLength
    ensures ValidatePost(content, Some(media)) == Invalid(ContentTooLong)
  {
  }

  /** An oversized media file is reported before its type is looked at. */
  lemma TooLargeBeforeType(content: string, media: MediaFile)
    requires |Trim(content)| <= MaxContentLength && media.size > MaxMediaSize
    ensures ValidatePost(content, Some(media)) == Invalid(MediaTooLarge)
  {
  }

  /** Leading and trailing whitespace is ignored, including for the length limit. */
  lemma PaddingIgnored(u: string, content: string, v: string, media: Option<MediaFile>)
    requires AllWhitespace(u) && AllWhitespace(v)
    ensures ValidatePost(u + content + v, media) == ValidatePost(content, media)
  {
    TrimIgnoresPadding(u, content, v);
  }

  /** A post made of media alone is valid when the media is acceptable. */
  lemma MediaOnlyPostValid(content: string, media: MediaFile)
    requires AllWhitespace(content) && AcceptableMedia(media)
    ensures ValidatePost(content, Some(media)) == Valid
  {
  }

  /** Text of `n` copies of `x`. */
  function Repeat(x: char, n: nat): (r: string)
    ensures |r| == n && forall i :: 0 <= i < n ==> r[i] == x
  {
    seq(n, _ => x)
  }

  /** 5000 characters pass and 5001 are too long; the limit is on the trimmed text. */
  lemma ContentLengthBoundary()
    ensures ValidatePost(Repeat('x', MaxContentLength), None) == Valid
    ensures ValidatePost(Repeat('x', MaxContentLength + 1), None) == Invalid(ContentTooLong)
    ensures ValidatePost(" " + Repeat('x', MaxContentLength) + "\n", None) == Valid
  {
    var ok, long := Repeat('x', MaxContentLength), Repeat('x', MaxContentLength + 1);
    TrimUnpadded(ok);
    TrimUnpadded(long);
    PaddingIgnored(" ", ok, "\n", None);
  }

  /** A media file of exactly 50 MiB passes and one byte more is too large. */
  lemma MediaSizeBoundary(content: string, mimeType: string)
    requires |Trim(content)| <= MaxContentLength && IsSupportedMediaType(mimeType)
    ensures ValidatePost(content, Some(MediaFile(52428800, mimeType))) == Valid
    ensures ValidatePost(content, Some(MediaFile(52428801, mimeType))) == Invalid(MediaTooLarge)
  {
  }

  /** Images and videos are accepted by MIME prefix; audio is not. */
  lemma MediaTypeExamples()
    ensures ValidatePost("", Some(MediaFile(1024, "image/png"))) == Valid
    ensures ValidatePost("", Some(MediaFile(1024, "video/mp4"))) == Valid
    ensures ValidatePost("", Some(MediaFile(1024, "audio/mpeg"))) == Invalid(UnsupportedMediaType)
    ensures ValidatePost("", Some(MediaFile(1024, ""))) == Invalid(UnsupportedMediaType)
  {
    var audio := "audio/mpeg";
    assert audio[..6][0] != "image/"[0] && audio[..6][0] != "video/"[0];
    assert !IsSupportedMediaType(audio);
  }
}
