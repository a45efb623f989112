/**
 * The bounded streaming download of khandy/misc.py (download_image and
 * download_file, which differ only in the Content-Type check and are modelled
 * as one method with a `requireImage` flag).
 *
 * The HTTP exchange is abstracted as a Reply: either a transport failure
 * (connection error or a non-success status raised by the client), or a
 * response with an optional Content-Type, an optional Content-Length (already
 * parsed as an integer, section 8.6 of RFC 9110) and the finite sequence of body
 * chunks that the client's chunk iterator yields. Warnings are returned as a
 * sequence instead of being emitted.
 */
module BoundedDownload {
  import opened Wrappers
  import opened DownloadErrors

  newtype byte = x: int | 0 <= x < 256

  type Chunk = seq<byte>

  const DefaultMinFilesize: nat := 0
  const DefaultMaxFilesize: nat := 100 * 1024 * 1024
  /** The chunk size the body iterator is asked for (10 KiB). */
  const ChunkSize: nat := 10 * 1024

  /** The inclusive size envelope [minFilesize, maxFilesize] of one call. */
  datatype Bounds = Bounds(minFilesize: nat, maxFilesize: nat)

  /** The envelope a caller gets by leaving out `min_filesize` and `max_filesize`. */
  const DefaultBounds: Bounds := Bounds(DefaultMinFilesize, DefaultMaxFilesize)

  datatype Reply =
    | TransportFailure
    | Response(contentType: Option<string>, contentLength: Option<int>, body: seq<Chunk>)

  datatype Warning = NoContentType | NoContentLength

  datatype Outcome = Fetched(bytes: seq<byte>) | Failed(error: DownloadError) | TransportError

  /** What one call produces: its outcome, how many chunks it pulled, what it warned about. */
  datatype Fetch = Fetch(outcome: Outcome, consumed: nat, warnings: seq<Warning>)

  /** The Content-Type prefixes an image download accepts (case-sensitive). */
  predicate IsAcceptedImageType(contentType: string)
  {
    "image/" <= contentType || "application/octet-stream" <= contentType
  }

  /** Number of bytes in a sequence of chunks. */
  function Total(cs: seq<Chunk>): nat
  {
    if cs == [] then 0 else Total(cs[..|cs| - 1]) + |cs[|cs| - 1]|
  }

  /** The chunks joined in arrival order. */
  function Concat(cs: seq<Chunk>): (r: seq<byte>)
    ensures |r| == Total(cs)
  {
    if cs == [] then [] else Concat(cs[..|cs| - 1]) + cs[|cs| - 1]
  }

  /**
   * How many chunks the streaming loop pulls when the budget is `max`: the length
   * of the shortest prefix whose total exceeds `max`, or all of them.
   */
  function Consumed(cs: seq<Chunk>, max: nat): (n: nat)
    ensures n <= |cs|
    ensures Total(cs) <= max ==> n == |cs|
    ensures Total(cs) > max ==> 1 <= n && Total(cs[..n]) > max && Total(cs[..n - 1]) <= max
  {
    if cs != [] && Total(cs[..|cs| - 1]) > max then
      var p := cs[..|cs| - 1];
      var n := Consumed(p, max);
      assert p[..n] == cs[..n] && p[..n - 1] == cs[..n - 1];
      n
    else
      assert cs != [] ==> cs[..|cs|] == cs;
      |cs|
  }

  /** The size verdict of the headers: a declared length above the maximum is checked first. */
  function DeclaredLengthVerdict(contentLength: Option<int>, bounds: Bounds): Option<StatusCode>
  {
    match contentLength
    case None => None
    case Some(len) =>
      if len > bounds.maxFilesize then Some(FileSizeTooLarge)
      else if len < bounds.minFilesize then Some(FileSizeTooSmall)
      else None
  }

  /** The headers let the body be read. */
  predicate HeadersAdmit(reply: Reply, bounds: Bounds, requireImage: bool)
  {
    && reply.Response?
    && (requireImage && reply.contentType.Some? ==> IsAcceptedImageType(reply.contentType.value))
    && DeclaredLengthVerdict(reply.contentLength, bounds).None?
  }

  /** The verdict on a body that the headers admitted, from its observed size alone. */
  function StreamVerdict(body: seq<Chunk>, bounds: Bounds): (Outcome, nat)
  {
    if Total(body) > bounds.maxFilesize then
      (Failed(NewError(FileSizeTooLarge, None)), Consumed(body, bounds.maxFilesize))
    else if Total(body) < bounds.minFilesize then
      (Failed(NewError(FileSizeTooSmall, None)), |body|)
    else
      (Fetched(Concat(body)), |body|)
  }

  /** The specification of one download call. */
  function ExpectedFetch(reply: Reply, bounds: Bounds, requireImage: bool): Fetch
  {
    match reply
    case TransportFailure => Fetch(TransportError, 0, [])
    case Response(contentType, contentLength, body) =>
      var typeWarnings := if requireImage && contentType.None? then [NoContentType] else [];
      if requireImage && contentType.Some? && !IsAcceptedImageType(contentType.value) then
        Fetch(Failed(NewError(UrlIsNotImage, None)), 0, typeWarnings)
      else
        var warnings := typeWarnings + (if contentLength.None? then [NoContentLength] else []);
        match DeclaredLengthVerdict(contentLength, bounds)
        case Some(status) => Fetch(Failed(NewError(status, None)), 0, warnings)
        case None =>
          var (outcome, consumed) := StreamVerdict(body, bounds);
          Fetch(outcome, consumed, warnings)
  }

  /**
   * download_image (requireImage) and download_file (not requireImage): header
   * pre-checks, then the chunk loop with a running total and an early exit.
   */
  method Download(reply: Reply, bounds: Bounds, requireImage: bool)
    returns (outcome: Outcome, consumed: nat, warnings: seq<Warning>)
    ensures Fetch(outcome, consumed, warnings) == ExpectedFetch(reply, bounds, requireImage)
  {
    consumed := 0;
    warnings := [];
    if reply.TransportFailure? {
      outcome := TransportError;
      return;
    }

    if requireImage {
      match reply.contentType {
        case None =>
          warnings := warnings + [NoContentType];
        case Some(contentType) =>
          if !IsAcceptedImageType(contentType) {
            outcome := Failed(NewError(UrlIsNotImage, None));
            return;
          }
      }
    }

    match reply.contentLength {
      case None =>
        warnings := warnings + [NoContentLength];
      case Some(contentLength) =>
        if contentLength > bounds.maxFilesize {
          outcome := Failed(NewError(FileSizeTooLarge, None));
          return;
        }
        if contentLength < bounds.minFilesize {
          outcome := Failed(NewError(FileSizeTooSmall, None));
          return;
        }
    }

    outcome, consumed := ReadBody(reply.body, bounds);
  }

  /**
   * The chunk loop of download_image / download_file, run once the headers admit
   * the body: accumulate chunks and their running total, stop with
   * FILE_SIZE_TOO_LARGE at the first chunk that takes the total over the maximum,
   * and check the minimum once the body is exhausted.
   */
  method ReadBody(body: seq<Chunk>, bounds: Bounds) returns (outcome: Outcome, consumed: nat)
    ensures (outcome, consumed) == StreamVerdict(body, bounds)
  {
    consumed := 0;
    var filesize := 0;
    var chunks: seq<Chunk> := [];
    while consumed < |body|
      invariant consumed <= |body|
      invariant chunks == body[..consumed]
      invariant filesize == Total(chunks)
      invariant filesize <= bounds.maxFilesize
    {
      var chunk := body[consumed];
      chunks := chunks + [chunk];
      filesize := filesize + |chunk|;
      consumed := consumed + 1;
      assert chunks[..|chunks| - 1] == body[..consumed - 1];
      assert chunks == body[..consumed];
      if filesize > bounds.maxFilesize {
        FirstOverflowIsConsumed(body, bounds.maxFilesize, consumed);
        outcome := Failed(NewError(FileSizeTooLarge, None));
        return;
      }
    }
    assert chunks == body;
    if filesize < bounds.minFilesize {
      outcome := Failed(NewError(FileSizeTooSmall, None));
      return;
    }
    outcome := Fetched(Concat(chunks));
  }

  // Facts about prefix totals.

  lemma {:induction false} TotalOfPrefix(cs: seq<Chunk>, m: nat)
    requires m <= |cs|
    ensures Total(cs[..m]) <= Total(cs)
    decreases |cs|
  {
    if m < |cs| {
      var p := cs[..|cs| - 1];
      assert p[..m] == cs[..m];
      TotalOfPrefix(p, m);
    } else {
      assert cs[..m] == cs;
    }
  }

  /** A prefix that overflows right at its last chunk is exactly what the loop consumes. */
  lemma {:induction false} FirstOverflowIsConsumed(cs: seq<Chunk>, max: nat, n: nat)
    requires 1 <= n <= |cs|
    requires Total(cs[..n]) > max && Total(cs[..n - 1]) <= max
    ensures Total(cs) > max && Consumed(cs, max) == n
    decreases |cs|
  {
    TotalOfPrefix(cs, n);
    if n < |cs| {
      var p := cs[..|cs| - 1];
      assert p[..n] == cs[..n] && p[..n - 1] == cs[..n - 1];
      TotalOfPrefix(p, n);
      FirstOverflowIsConsumed(p, max, n);
    } else {
      assert cs[..n - 1] == cs[..|cs| - 1];
    }
  }

  // Properties of the specification.

  /** A transport failure is surfaced before any header is looked at. */
  lemma TransportFailureReadsNothing(bounds: Bounds, requireImage: bool)
    ensures ExpectedFetch(TransportFailure, bounds, requireImage) == Fetch(TransportError, 0, [])
  {
  }

  /** An image download refuses a declared non-image type before reading the body. */
  lemma NonImageTypeRejected(reply: Reply, bounds: Bounds)
    requires reply.Response? && reply.contentType.Some?
    requires !IsAcceptedImageType(reply.contentType.value)
    ensures ExpectedFetch(reply, bounds, true).outcome == Failed(NewError(UrlIsNotImage, None))
    ensures ExpectedFetch(reply, bounds, true).consumed == 0
  {
  }

  /**
   * An image download with an accepted Content-Type behaves exactly like a file
   * download; one with no Content-Type behaves like it too, with one more warning.
   */
  lemma ImageTypeCheckOnlyRejects(contentType: Option<string>, contentLength: Option<int>, body: seq<Chunk>, bounds: Bounds)
    requires contentType.Some? ==> IsAcceptedImageType(contentType.value)
    ensures var image := ExpectedFetch(Response(contentType, contentLength, body), bounds, true);
            var file := ExpectedFetch(Response(contentType, contentLength, body), bounds, false);
            && image.outcome == file.outcome
            && image.consumed == file.consumed
            && image.warnings == (if contentType.None? then [NoContentType] else []) + file.warnings
  {
  }

  /** A file download never looks at Content-Type. */
  lemma FileDownloadIgnoresContentType(t1: Option<string>, t2: Option<string>, contentLength: Option<int>, body: seq<Chunk>, bounds: Bounds)
    ensures ExpectedFetch(Response(t1, contentLength, body), bounds, false)
         == ExpectedFetch(Response(t2, contentLength, body), bounds, false)
  {
  }

  /** The MIME check (when asked for) passes and the response did arrive. */
  predicate TypeAdmits(reply: Reply, requireImage: bool)
  {
    reply.Response? && (requireImage && reply.contentType.Some? ==> IsAcceptedImageType(reply.contentType.value))
  }

  /** A declared length above the maximum fails at once, whatever the minimum; no chunk is read. */
  lemma DeclaredTooLargeReadsNothing(reply: Reply, bounds: Bounds, requireImage: bool)
    requires TypeAdmits(reply, requireImage)
    requires reply.contentLength.Some? && reply.contentLength.value > bounds.maxFilesize
    ensures ExpectedFetch(reply, bounds, requireImage).outcome == Failed(NewError(FileSizeTooLarge, None))
    ensures ExpectedFetch(reply, bounds, requireImage).consumed == 0
  {
  }

  /** A declared length below the minimum (and not above the maximum) fails before the body is read. */
  lemma DeclaredTooSmallReadsNothing(reply: Reply, bounds: Bounds, requireImage: bool)
    requires TypeAdmits(reply, requireImage)
    requires reply.contentLength.Some?
    requires reply.contentLength.value <= bounds.maxFilesize && reply.contentLength.value < bounds.minFilesize
    ensures ExpectedFetch(reply, bounds, requireImage).outcome == Failed(NewError(FileSizeTooSmall, None))
    ensures ExpectedFetch(reply, bounds, requireImage).consumed == 0
  {
  }

  /**
   * A missing Content-Length only adds a warning: the verdict is then the
   * observed-size verdict of the body.
   */
  lemma MissingLengthOnlyWarns(reply: Reply, bounds: Bounds, requireImage: bool)
    requires TypeAdmits(reply, requireImage) && reply.contentLength.None?
    ensures var f := ExpectedFetch(reply, bounds, requireImage);
            && NoContentLength in f.warnings
            && (f.outcome, f.consumed) == StreamVerdict(reply.body, bounds)
  {
  }

  /**
   * Once the headers admit the body, the declared length plays no part: the call
   * ends exactly as it would have with no Content-Length header at all.
   */
  lemma DeclaredLengthIsAdvisory(reply: Reply, bounds: Bounds, requireImage: bool)
    requires HeadersAdmit(reply, bounds, requireImage)
    ensures var f := ExpectedFetch(reply, bounds, requireImage);
            var g := ExpectedFetch(reply.(contentLength := None), bounds, requireImage);
            f.outcome == g.outcome && f.consumed == g.consumed
  {
  }

  /**
   * A truthful Content-Length changes only how much is read: the verdict is the
   * one the observed size alone gives.
   */
  lemma TruthfulLengthSameVerdict(contentType: Option<string>, body: seq<Chunk>, bounds: Bounds, requireImage: bool)
    ensures ExpectedFetch(Response(contentType, Some(Total(body)), body), bounds, requireImage).outcome
         == ExpectedFetch(Response(contentType, None, body), bounds, requireImage).outcome
  {
  }

  /**
   * Streaming stops at the first chunk that takes the running total above the
   * maximum: every shorter prefix was within it, and what was accumulated exceeds
   * the maximum by less than that last chunk (so by at most one chunk size when the
   * client keeps to it).
   */
  lemma {:induction false} StreamStopsAtFirstOverflow(reply: Reply, bounds: Bounds, requireImage: bool)
    requires HeadersAdmit(reply, bounds, requireImage)
    requires Total(reply.body) > bounds.maxFilesize
    ensures var f := ExpectedFetch(reply, bounds, requireImage);
            var n := f.consumed;
            && f.outcome == Failed(NewError(FileSizeTooLarge, None))
            && 1 <= n <= |reply.body|
            && (forall m :: 0 <= m < n ==> Total(reply.body[..m]) <= bounds.maxFilesize)
            && bounds.maxFilesize < Total(reply.body[..n]) <= bounds.maxFilesize + |reply.body[n - 1]|
            && ((forall i :: 0 <= i < |reply.body| ==> |reply.body[i]| <= ChunkSize) ==>
                  Total(reply.body[..n]) <= bounds.maxFilesize + ChunkSize)
  {
    var body := reply.body;
    var n := Consumed(body, bounds.maxFilesize);
    assert body[..n][..n - 1] == body[..n - 1];
    forall m | 0 <= m < n
      ensures Total(body[..m]) <= bounds.maxFilesize
    {
      assert body[..n - 1][..m] == body[..m];
      TotalOfPrefix(body[..n - 1], m);
    }
  }

  /**
   * A body that stays within the maximum but ends short of the minimum fails after
   * being read in full; an empty body does so whenever the minimum is positive.
   */
  lemma ShortBodyTooSmall(reply: Reply, bounds: Bounds, requireImage: bool)
    requires HeadersAdmit(reply, bounds, requireImage)
    requires Total(reply.body) <= bounds.maxFilesize && Total(reply.body) < bounds.minFilesize
    ensures ExpectedFetch(reply, bounds, requireImage).outcome == Failed(NewError(FileSizeTooSmall, None))
    ensures ExpectedFetch(reply, bounds, requireImage).consumed == |reply.body|
  {
  }

  /**
   * A call succeeds exactly when the headers admit the body and its observed size
   * lies in the envelope; the bytes returned are then the chunks joined in arrival
   * order, all of them read.
   */
  lemma SuccessIsConcatenation(reply: Reply, bounds: Bounds, requireImage: bool)
    ensures var f := ExpectedFetch(reply, bounds, requireImage);
            f.outcome.Fetched? <==>
              HeadersAdmit(reply, bounds, requireImage)
              && bounds.minFilesize <= Total(reply.body) <= bounds.maxFilesize
    ensures var f := ExpectedFetch(reply, bounds, requireImage);
            f.outcome.Fetched? ==>
              && f.outcome.bytes == Concat(reply.body)
              && bounds.minFilesize <= |f.outcome.bytes| <= bounds.maxFilesize
              && f.consumed == |reply.body|
  {
  }

  /**
   * The errors raised are URL_IS_NOT_IMAGE, FILE_SIZE_TOO_LARGE and
   * FILE_SIZE_TOO_SMALL, with no extra string; FILE_SIZE_IS_ZERO never is.
   */
  lemma FileSizeIsZeroNeverRaised(reply: Reply, bounds: Bounds, requireImage: bool)
    ensures var f := ExpectedFetch(reply, bounds, requireImage);
            f.outcome.Failed? ==>
              && f.outcome.error.code != FileSizeIsZero.Code()
              && exists status :: status != FileSizeIsZero && f.outcome.error == NewError(status, None)
  {
  }

  /**
   * With the default envelope the minimum is zero, so an empty body with no
   * Content-Length is accepted as the empty byte string.
   */
  lemma DefaultBoundsAcceptEmptyBody(contentType: Option<string>, requireImage: bool)
    requires TypeAdmits(Response(contentType, None, []), requireImage)
    ensures var f := ExpectedFetch(Response(contentType, None, []), DefaultBounds, requireImage);
            && f.outcome == Fetched([])
            && f.consumed == 0
            && f.warnings == (if requireImage && contentType.None? then [NoContentType] else []) + [NoContentLength]
  {
  }

  /** Chunks are read only when the headers admit the body, and never past its end. */
  lemma ConsumptionBounds(reply: Reply, bounds: Bounds, requireImage: bool)
    ensures var f := ExpectedFetch(reply, bounds, requireImage);
            && (reply.Response? ==> f.consumed <= |reply.body|)
            && (!HeadersAdmit(reply, bounds, requireImage) ==> f.consumed == 0)
  {
  }
}
