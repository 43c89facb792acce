/**
 * The cases of the middleware's test suite, stated for every compressor rather
 * than the default one. The test responses are built with a `Content-Type`
 * field, which a response stores under the lower-cased name `content-type`.
 */
module MiddlewareScenarios {
  import opened Wrappers
  import opened Decimal
  import opened HttpMessage
  import opened HtmlCompressMiddleware

  /**
   * An HTML response returned directly by the next handler comes back with the
   * compressed body and a `Content-Length` that casts back to its length.
   */
  lemma CompressedResponse<Request>(compress: Compressor, mime: string, body: seq<byte>,
                                    compressed: seq<byte>, request: Request)
    requires mime in MimeTypes && compress(body) == Ok(compressed)
    ensures var upstream := Response(200, map["content-type" := [mime]], Buffered(body));
            var result := Settled(Invoke(compress, (_: Request) => Immediate(upstream), request));
            && result.Ok?
            && result.value.body == Buffered(compressed)
            && Parse(result.value.HeaderLine("Content-Length")) == Some(|compressed|)
  {
    var upstream := Response(200, map["content-type" := [mime]], Buffered(body));
    HeaderNamesNormalised();
    assert upstream.HeaderLine(ContentType) == mime;
    assert MimeSegment(mime) == mime by {
      assert ';' !in mime;
      MimeSegmentUnique(mime, mime);
    }
    assert IsCompressible(upstream);
    EligibleBodyIsCompressed(compress, upstream, compressed);
    ContentLengthReadsBack(compress, upstream, "Content-Length");
    ImmediateAndDeferredAgree(compress, upstream, request);
  }

  /**
   * A response without a content type, or of type `text/pain`, delivered through
   * a promise, keeps its body.
   */
  lemma IgnoreNotSupportedAndMissingContentTypes<Request>(compress: Compressor,
                                                          headers: map<string, seq<string>>,
                                                          body: seq<byte>, request: Request)
    requires headers == map[] || headers == map["content-type" := ["text/pain"]]
    ensures var upstream := Response(200, headers, Buffered(body));
            var result := Settled(Invoke(compress, (_: Request) => Deferred(Fulfilled(upstream)), request));
            result == Ok(upstream)
  {
    var upstream := Response(200, headers, Buffered(body));
    HeaderNamesNormalised();
    UnlistedMediaTypeNotEligible();
    assert !IsCompressible(upstream);
  }

  /** A streaming `HttpBodyStream` body survives the middleware as it was. */
  lemma HttpBodyStreamKept<Request>(compress: Compressor, request: Request)
    ensures var upstream := Response(200, map[], Streaming);
            var result := Settled(Invoke(compress, (_: Request) => Deferred(Fulfilled(upstream)), request));
            result.Ok? && result.value.body.Streaming?
  {
  }
}
