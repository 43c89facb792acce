/**
 * The middleware itself: `handleResponse` rewrites the body of an HTML response
 * through an injected compressor and sets `Content-Length` to match; `__invoke`
 * applies it to the response produced by the next handler, whether that response
 * arrives at once or through a promise.
 */
module HtmlCompressMiddleware {
  import opened Wrappers
  import opened Decimal
  import opened HttpMessage

  /** A PHP exception, identified by its message. */
  datatype Exception = Exception(message: string)

  /**
   * The injected `HtmlCompressorInterface::compress`: an opaque function from the
   * body to its compressed form, which may throw.
   */
  type Compressor = seq<byte> -> Result<seq<byte>, Exception>

  /** The media types whose bodies are compressed (`MIME_TYPES`). */
  const MimeTypes: seq<string> := ["text/html", "text/xhtml"]

  /** The header names as `handleResponse` spells them. */
  const ContentType: string := "content-type"
  const ContentLength: string := "Content-Length"

  /** The names under which a response stores those two headers. */
  lemma HeaderNamesNormalised()
    ensures Lower(ContentType) == "content-type"
    ensures Lower(ContentLength) == "content-length"
  {
  }

  /**
   * The first element of `explode(';', line)`: the text before the first `;`,
   * or the whole line when it has none. It is neither trimmed nor case-folded.
   */
  function MimeSegment(line: string): (segment: string)
    ensures segment <= line
    ensures ';' !in segment
    ensures |segment| < |line| ==> line[|segment|] == ';'
  {
    if line == [] || line[0] == ';' then [] else [line[0]] + MimeSegment(line[1..])
  }

  /** The three conditions above determine the segment: no other prefix meets them. */
  lemma MimeSegmentUnique(line: string, segment: string)
    requires segment <= line && ';' !in segment
    requires |segment| < |line| ==> line[|segment|] == ';'
    ensures MimeSegment(line) == segment
  {
  }

  /** Parameters after the first `;` (a charset, say) do not change the segment. */
  lemma MimeSegmentIgnoresParameters(mime: string, parameters: string)
    requires ';' !in mime
    ensures MimeSegment(mime + ";" + parameters) == MimeSegment(mime) == mime
  {
    MimeSegmentUnique(mime + ";" + parameters, mime);
    MimeSegmentUnique(mime, mime);
  }

  /** The reference statement of which responses the middleware rewrites. */
  predicate IsCompressible(r: Response) {
    && r.body.Buffered?
    && r.HasHeader(ContentType)
    && MimeSegment(r.HeaderLine(ContentType)) in MimeTypes
  }

  /** Body and `Content-Length` agree: the header reads back as the body's byte count. */
  predicate ContentLengthConsistent(r: Response) {
    && r.body.Buffered?
    && r.HasHeader(ContentLength)
    && Parse(r.HeaderLine(ContentLength)) == Some(|r.body.bytes|)
  }

  /**
   * `handleResponse`: streaming bodies, responses without a content type and
   * responses of any other media type pass through; an HTML body is replaced by
   * its compressed form and `Content-Length` by that form's byte count. An
   * exception thrown by the compressor escapes.
   */
  function HandleResponse(compress: Compressor, r: Response): (result: Result<Response, Exception>)
    ensures !IsCompressible(r) ==> result == Ok(r)
    ensures IsCompressible(r) && result.Ok? ==> ContentLengthConsistent(result.value)
    ensures result.Ok? ==> result.value.status == r.status
    ensures result.Ok? && r.WellFormed() ==> result.value.WellFormed()
  {
    if r.body.Streaming? then Ok(r)
    else if !r.HasHeader(ContentType) then Ok(r)
    else if MimeSegment(r.HeaderLine(ContentType)) !in MimeTypes then Ok(r)
    else
      match compress(r.body.bytes)
      case Err(e) => Err(e)
      case Ok(compressed) =>
        ParseRender(|compressed|);
        Ok(r.WithBody(Buffered(compressed)).WithHeader(ContentLength, Render(|compressed|)))
  }

  /** Exactly the two media types of `MIME_TYPES` make a buffered response with a content type eligible. */
  lemma OnlyListedMediaTypesEligible(r: Response)
    ensures IsCompressible(r) <==>
      && r.body.Buffered?
      && r.HasHeader(ContentType)
      && (MimeSegment(r.HeaderLine(ContentType)) == "text/html" || MimeSegment(r.HeaderLine(ContentType)) == "text/xhtml")
  {
  }

  /** A streaming `HttpBodyStream` body is never touched, whatever the headers say. */
  lemma StreamingPassesThrough(compress: Compressor, r: Response)
    requires r.body.Streaming?
    ensures HandleResponse(compress, r) == Ok(r)
  {
  }

  /** A response without a content type, under whatever spelling of the name, passes through. */
  lemma MissingContentTypePassesThrough(compress: Compressor, r: Response, name: string)
    requires Lower(name) == "content-type" && !r.HasHeader(name)
    ensures HandleResponse(compress, r) == Ok(r)
  {
  }

  /** Eligibility is an exact, case-sensitive match of the segment against `MIME_TYPES`. */
  lemma OtherMediaTypePassesThrough(compress: Compressor, r: Response)
    requires r.HasHeader(ContentType)
    requires MimeSegment(r.HeaderLine(ContentType)) != "text/html"
    requires MimeSegment(r.HeaderLine(ContentType)) != "text/xhtml"
    ensures HandleResponse(compress, r) == Ok(r)
  {
  }

  /** The comparison with `MIME_TYPES` is case-sensitive. */
  lemma MediaTypeNotCaseFolded()
    ensures MimeSegment("TEXT/HTML") !in MimeTypes
  {
    MimeSegmentUnique("TEXT/HTML", "TEXT/HTML");
    assert "TEXT/HTML"[0] != "text/html"[0] && |"TEXT/HTML"| != |"text/xhtml"|;
  }

  /** The segment is not trimmed: white space before the media type disqualifies it. */
  lemma MediaTypeNotTrimmed()
    ensures MimeSegment(" text/html") !in MimeTypes
  {
    MimeSegmentUnique(" text/html", " text/html");
    assert " text/html"[0] != "text/xhtml"[0] && |" text/html"| != |"text/html"|;
  }

  /** Nor is white space before the `;` stripped: `text/html ; charset=...` is not eligible. */
  lemma SpaceBeforeParametersDisqualifies(parameters: string)
    ensures MimeSegment("text/html " + ";" + parameters) !in MimeTypes
  {
    var mime := "text/html ";
    MimeSegmentIgnoresParameters(mime, parameters);
    assert mime[9] != "text/xhtml"[9] && |mime| != |"text/html"|;
  }

  /** A media type outside the list, such as the test suite's `text/pain`, is not eligible. */
  lemma UnlistedMediaTypeNotEligible()
    ensures MimeSegment("text/pain") !in MimeTypes
  {
    MimeSegmentUnique("text/pain", "text/pain");
    assert "text/pain"[7] != "text/html"[7] && |"text/pain"| != |"text/xhtml"|;
  }

  /**
   * A content type carrying parameters is eligible exactly when the media type
   * before its first `;` is: `text/html; charset=utf-8` is treated like `text/html`.
   */
  lemma ParametersDoNotAffectEligibility(r: Response, mime: string, parameters: string)
    requires ';' !in mime
    requires r.HasHeader(ContentType) && r.HeaderLine(ContentType) == mime + ";" + parameters
    ensures IsCompressible(r) <==> r.body.Buffered? && (mime == "text/html" || mime == "text/xhtml")
  {
    MimeSegmentIgnoresParameters(mime, parameters);
  }

  /**
   * An eligible body is replaced by the compressor's output on the whole body,
   * and `Content-Length` by the decimal byte count of that output.
   */
  lemma EligibleBodyIsCompressed(compress: Compressor, r: Response, compressed: seq<byte>)
    requires IsCompressible(r) && compress(r.body.bytes) == Ok(compressed)
    ensures HandleResponse(compress, r).Ok?
    ensures HandleResponse(compress, r).value.body == Buffered(compressed)
    ensures HandleResponse(compress, r).value.HeaderLine("content-length") == Render(|compressed|)
  {
    var rewritten := r.WithBody(Buffered(compressed)).WithHeader(ContentLength, Render(|compressed|));
    assert HandleResponse(compress, r) == Ok(rewritten);
    HeaderNamesNormalised();
    HeaderLookupIgnoresCase(rewritten, "content-length", ContentLength);
  }

  /** Whatever `Content-Length` said before, afterwards it reads back as the new body's length. */
  lemma ContentLengthReadsBack(compress: Compressor, r: Response, name: string)
    requires IsCompressible(r) && HandleResponse(compress, r).Ok?
    requires Lower(name) == "content-length"
    ensures HandleResponse(compress, r).value.HasHeader(name)
    ensures Parse(HandleResponse(compress, r).value.HeaderLine(name)) == Some(|HandleResponse(compress, r).value.body.bytes|)
  {
    HeaderNamesNormalised();
    HeaderLookupIgnoresCase(HandleResponse(compress, r).value, name, ContentLength);
  }

  /** Nothing but the body and `Content-Length` changes: the status and every other header stay. */
  lemma OnlyBodyAndContentLengthChange(compress: Compressor, r: Response, name: string)
    requires HandleResponse(compress, r).Ok?
    requires Lower(name) != "content-length"
    ensures HandleResponse(compress, r).value.status == r.status
    ensures HandleResponse(compress, r).value.HasHeader(name) == r.HasHeader(name)
    ensures HandleResponse(compress, r).value.HeaderLine(name) == r.HeaderLine(name)
  {
    HeaderNamesNormalised();
    if IsCompressible(r) {
      var compressed := compress(r.body.bytes).value;
      var rebodied := r.WithBody(Buffered(compressed));
      assert HandleResponse(compress, r) == Ok(rebodied.WithHeader(ContentLength, Render(|compressed|)));
      assert rebodied.HasHeader(name) == r.HasHeader(name) && rebodied.HeaderLine(name) == r.HeaderLine(name);
    }
  }

  /** An exception from the compressor is not caught. */
  lemma CompressorExceptionEscapes(compress: Compressor, r: Response, e: Exception)
    requires IsCompressible(r) && compress(r.body.bytes) == Err(e)
    ensures HandleResponse(compress, r) == Err(e)
  {
  }

  /** The compressor is consulted only for eligible responses: otherwise its choice is irrelevant. */
  lemma IneligibleIgnoresCompressor(c1: Compressor, c2: Compressor, r: Response)
    requires !IsCompressible(r)
    ensures HandleResponse(c1, r) == HandleResponse(c2, r)
  {
  }

  /** A React promise once it has settled. */
  datatype Promise = Fulfilled(response: Response) | Rejected(reason: Exception)

  /** What the next handler does: return a response, return a promise of one, or throw. */
  datatype Outcome = Immediate(response: Response) | Deferred(promise: Promise) | Raised(reason: Exception)

  /** What `__invoke` does: return a promise, or throw. */
  datatype Invocation = Returned(promise: Promise) | Threw(reason: Exception)

  /** `$promise->then($f)`: `f` applied on fulfilment, its exception a rejection, a rejection kept. */
  function Then(p: Promise, f: Response -> Result<Response, Exception>): (q: Promise)
    ensures p.Rejected? ==> q == p
    ensures p.Fulfilled? && f(p.response).Ok? ==> q == Fulfilled(f(p.response).value)
    ensures p.Fulfilled? && f(p.response).Err? ==> q == Rejected(f(p.response).error)
  {
    match p
    case Rejected(_) => p
    case Fulfilled(r) =>
      match f(r)
      case Ok(r') => Fulfilled(r')
      case Err(e) => Rejected(e)
  }

  /** What a caller awaiting the result of a call sees: the response, or the exception. */
  function Settled(inv: Invocation): Result<Response, Exception> {
    match inv
    case Threw(e) => Err(e)
    case Returned(Fulfilled(r)) => Ok(r)
    case Returned(Rejected(e)) => Err(e)
  }

  /** The response the next handler eventually delivers, or its exception. */
  function Upstream(o: Outcome): Result<Response, Exception> {
    match o
    case Immediate(r) => Ok(r)
    case Deferred(Fulfilled(r)) => Ok(r)
    case Deferred(Rejected(e)) => Err(e)
    case Raised(e) => Err(e)
  }

  /**
   * `__invoke`: call the next handler; a plain response is rewritten at once and
   * wrapped by `resolve`, a promise gets the rewrite attached with `then`.
   */
  function Invoke<Request>(compress: Compressor, next: Request -> Outcome, request: Request): (inv: Invocation)
    ensures Upstream(next(request)).Ok? ==> Settled(inv) == HandleResponse(compress, Upstream(next(request)).value)
    ensures Upstream(next(request)).Err? ==> Settled(inv) == Upstream(next(request))
    ensures next(request).Raised? ==> inv == Threw(next(request).reason)
    ensures next(request).Deferred? ==> inv.Returned?
    ensures next(request).Immediate? ==> (inv.Returned? <==> HandleResponse(compress, next(request).response).Ok?)
  {
    match next(request)
    case Raised(e) => Threw(e)
    case Immediate(r) =>
      (match HandleResponse(compress, r)
       case Ok(r') => Returned(Fulfilled(r'))
       case Err(e) => Threw(e))
    case Deferred(p) => Returned(Then(p, r => HandleResponse(compress, r)))
  }

  /** A response delivered at once and the same response delivered through a promise end up the same. */
  lemma ImmediateAndDeferredAgree<Request>(compress: Compressor, r: Response, request: Request)
    ensures Settled(Invoke(compress, (_: Request) => Immediate(r), request))
         == Settled(Invoke(compress, (_: Request) => Deferred(Fulfilled(r)), request))
         == HandleResponse(compress, r)
  {
  }
}
