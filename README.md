# HTML compression middleware for ReactPHP HTTP, modelled in Dafny

`HtmlCompressMiddleware` sits in a ReactPHP HTTP middleware chain. It calls the
next handler, and when the response that comes back is HTML (`text/html` or
`text/xhtml`) with a buffered body, it replaces the body by the output of an
injected HTML compressor and sets `Content-Length` to the byte length of that
output. Streaming bodies, responses without a content type and any other media
type pass through untouched.

The model is a set of pure functions over immutable values, as the PHP class is:

- `Wrappers` — `Option` and `Result` (a value, or the exception that was thrown).
- `Decimal` — the decimal rendering PHP's `(string) strlen(...)` gives a byte
  count, and the parse that reads a `Content-Length` value back; both directions
  of the round trip are proved.
- `HttpMessage` — the PSR-7 response as a value: a status, headers keyed by
  their ASCII-lower-cased name (so `hasHeader`, `getHeaderLine` and `withHeader`
  ignore the case of the name), each header a list of values that
  `getHeaderLine` joins with `", "`, and a body that is `Buffered(bytes)` or
  `Streaming` (a React `HttpBodyStream`).
- `HtmlCompressMiddleware` — `MIME_TYPES`, the media-type segment of the
  `content-type` line (`explode(';', ...)[0]`), `handleResponse` and `__invoke`.
  The compressor is a parameter: an arbitrary function from the body bytes to
  either the compressed bytes or an exception. The next handler is a parameter
  too, returning a response, a settled promise of one, or throwing.
- `MiddlewareScenarios` — the three cases of the test suite, proved for every
  compressor rather than for the default one.

Note that an exception thrown by the compressor while handling a response that
the next handler returned directly escapes `__invoke` as a thrown exception (it
is raised inside `resolve(...)`'s argument), as does an exception thrown by the
next handler itself, whereas on the promise path a compressor exception becomes
a rejection. `Invoke`'s contract states each case, and a caller that awaits the
call sees the same failure either way (`ImmediateAndDeferredAgree`).

## Model

| member | source | states |
|---|---|---|
| `HtmlCompressMiddleware.HandleResponse` | src/HtmlCompressMiddleware.php:54-73 | a response that is not compressible comes back as it was; when the rewrite succeeds the new `Content-Length` reads back as the new body's byte length, the status is kept and normalised header names stay normalised |
| `HtmlCompressMiddleware.MimeSegment` | src/HtmlCompressMiddleware.php:64 | the segment is a prefix of the header line, holds no `;`, and is followed by a `;` unless it is the whole line |
| `HtmlCompressMiddleware.MimeSegmentUnique` | src/HtmlCompressMiddleware.php:64 | those three conditions determine the segment uniquely |
| `HtmlCompressMiddleware.MimeSegmentIgnoresParameters` | src/HtmlCompressMiddleware.php:64 | for a media type without `;`, anything after the first `;` leaves the segment equal to the media type |
| `HtmlCompressMiddleware.OnlyListedMediaTypesEligible` | src/HtmlCompressMiddleware.php:22-25 | a buffered response with a content type is compressible exactly when its media-type segment is `text/html` or `text/xhtml`, the two entries of `MIME_TYPES` |
| `HtmlCompressMiddleware.StreamingPassesThrough` | src/HtmlCompressMiddleware.php:56-58 | a streaming body makes the response come back unchanged, whatever its headers |
| `HtmlCompressMiddleware.MissingContentTypePassesThrough` | src/HtmlCompressMiddleware.php:60-62 | a response lacking `content-type`, under any spelling of the name, comes back unchanged |
| `HtmlCompressMiddleware.OtherMediaTypePassesThrough` | src/HtmlCompressMiddleware.php:64-67 | a segment other than exactly `text/html` or `text/xhtml` leaves the response unchanged |
| `HtmlCompressMiddleware.MediaTypeNotCaseFolded` | src/HtmlCompressMiddleware.php:22-25 | `TEXT/HTML` is not eligible: the comparison is case-sensitive |
| `HtmlCompressMiddleware.MediaTypeNotTrimmed` | src/HtmlCompressMiddleware.php:64-65 | ` text/html` with a leading space is not eligible: the segment is not trimmed |
| `HtmlCompressMiddleware.SpaceBeforeParametersDisqualifies` | src/HtmlCompressMiddleware.php:64-65 | `text/html ;...` is not eligible, whatever the parameters |
| `HtmlCompressMiddleware.UnlistedMediaTypeNotEligible` | tests/HtmlCompressMiddlewareTest.php:77-79 | the test's `text/pain` is not an eligible media type |
| `HtmlCompressMiddleware.ParametersDoNotAffectEligibility` | src/HtmlCompressMiddleware.php:64-66 | with a content type `mime;params`, the response is compressible exactly when its body is buffered and `mime` is `text/html` or `text/xhtml` |
| `HtmlCompressMiddleware.EligibleBodyIsCompressed` | src/HtmlCompressMiddleware.php:69-72 | for a compressible response whose compressor succeeds, the new body is the compressor's output on the whole old body and `content-length` is the decimal rendering of its length |
| `HtmlCompressMiddleware.ContentLengthReadsBack` | src/HtmlCompressMiddleware.php:72 | after a rewrite, `Content-Length` (under any spelling) is present and parses back to the new body's byte length, replacing any earlier value |
| `HtmlCompressMiddleware.OnlyBodyAndContentLengthChange` | src/HtmlCompressMiddleware.php:72 | the status and every header other than `Content-Length` are the same before and after |
| `HtmlCompressMiddleware.CompressorExceptionEscapes` | src/HtmlCompressMiddleware.php:69-70 | an exception from the compressor is not caught: it is the result of handling |
| `HtmlCompressMiddleware.IneligibleIgnoresCompressor` | src/HtmlCompressMiddleware.php:54-67 | for a response that is not compressible, the result does not depend on the compressor at all |
| `HtmlCompressMiddleware.Then` | src/HtmlCompressMiddleware.php:49-51 | a rejected promise stays rejected; a fulfilled one becomes fulfilled with the handler's result, or rejected with its exception |
| `HtmlCompressMiddleware.Invoke` | src/HtmlCompressMiddleware.php:41-52 | the settled result is `handleResponse` of the response the next handler delivers, or that handler's own exception untouched; an exception from the next handler is thrown again, not turned into a rejection; the promise path always returns a promise; the direct path returns one exactly when handling does not throw |
| `HtmlCompressMiddleware.ImmediateAndDeferredAgree` | src/HtmlCompressMiddleware.php:43-51 | a response returned directly and the same response returned through a promise settle to the same result, which is `handleResponse` of it |
| `Decimal.Render` | src/HtmlCompressMiddleware.php:72 | the rendering of a count is a non-empty digit string without leading zeros, of one digit exactly for counts below ten |
| `Decimal.Parse` | tests/HtmlCompressMiddlewareTest.php:51 | a header value parses to a count exactly when it is a non-empty string of digits |
| `Decimal.ParseRender` | src/HtmlCompressMiddleware.php:72 | parsing the rendering of `n` gives `n` |
| `Decimal.RenderParse` | src/HtmlCompressMiddleware.php:72 | every digit string without leading zeros is the rendering of the number it parses to |
| `Decimal.RenderInjective` | src/HtmlCompressMiddleware.php:72 | distinct byte counts never render to the same header value |
| `HttpMessage.Lower` | src/HtmlCompressMiddleware.php:60 | the normalised header name has the same length, each character is its ASCII lower-case form (upper-case letters move by 32, everything else is kept), it contains no upper-case letter, and an already lower-case name is its own normal form |
| `HttpMessage.JoinValues` | src/HtmlCompressMiddleware.php:64 | the header line is empty for no values, is the value itself for one, is the two values separated by `", "` for two, and always starts with the first value |
| `HttpMessage.Response.HasHeader` | src/HtmlCompressMiddleware.php:60 | in a response whose stored names are normalised, a header is present exactly when some stored name equals the given one ignoring ASCII case |
| `HttpMessage.Response.WithBody` | src/HtmlCompressMiddleware.php:72 | the copy has the new body, the same status and the same headers, so every header's presence and line are unchanged |
| `HttpMessage.Response.HeaderLine` | src/HtmlCompressMiddleware.php:64 | the line of an absent header is empty; that of a single-valued header is its value |
| `HttpMessage.Response.WithHeader` | src/HtmlCompressMiddleware.php:72 | afterwards the header is present with exactly the new value, every header under another normalised name is as before, the status and body are kept, and normalised names stay normalised |
| `HttpMessage.HeaderLookupIgnoresCase` | src/HtmlCompressMiddleware.php:60 | two names that differ only in ASCII case find the same header |
| `MiddlewareScenarios.CompressedResponse` | tests/HtmlCompressMiddlewareTest.php:36-66 | an HTML response of either listed type returned directly comes back with the compressed body and a `Content-Length` that reads back as its length |
| `MiddlewareScenarios.IgnoreNotSupportedAndMissingContentTypes` | tests/HtmlCompressMiddlewareTest.php:87-103 | with no headers or with `text/pain`, the response delivered through a promise comes back unchanged |
| `MiddlewareScenarios.HttpBodyStreamKept` | tests/HtmlCompressMiddlewareTest.php:105-120 | a streaming body delivered through a promise is still streaming afterwards |

## Left out

- The HTML compression algorithm (`HtmlCompressorInterface::compress`): it belongs to another library, so the model takes the compressor as an arbitrary function.
- The constructor's default (`Factory::constructFastest()` when no compressor is given): configuration only; every member takes the compressor explicitly.
- EligibleBodyIsCompressed: states that the new body is the compressor's output on the whole old body, not that the compressor runs exactly once, because a pure model keeps no log of calls; `IneligibleIgnoresCompressor` states that it is not consulted for other responses.
- The ReactPHP promise runtime: pending promises, scheduling and `await` are not modelled; a promise is represented once it has settled, as fulfilled or rejected.
- The type check on the `then` callback's `ResponseInterface` parameter and on what the next handler returns: the model's types admit only responses.
- PSR-7 streams: `stream_for`, one-shot reads and any stream class other than `HttpBodyStream` (all treated as a buffered body read with `(string)`).
- The original spelling of header names, which PSR-7 keeps for `getHeaders()`: the model keeps only the lower-cased name that lookups use.
- Decimal.Parse: models the test's `(int)` cast only on digit strings, which is all a rendered `Content-Length` contains; PHP's lenient reading of other strings is not modelled.
- The status code is an unbounded natural number; the range PSR-7 enforces is irrelevant here, as the middleware never reads it.
