/**
 * The part of a PSR-7 HTTP response the middleware relies on, as an immutable value:
 * a status code, headers looked up case-insensitively, and a body that is either a
 * buffered byte string or a streaming `HttpBodyStream`.
 */
module HttpMessage {

  newtype byte = x: int | 0 <= x < 256

  predicate IsUpper(c: char) {
    'A' <= c <= 'Z'
  }

  /** ASCII lower-casing of one character, as PHP's `strtolower` does it. */
  function LowerChar(c: char): (l: char)
    ensures !IsUpper(l)
    ensures !IsUpper(c) ==> l == c
    ensures IsUpper(c) ==> l as int == c as int + 32
  {
    if IsUpper(c) then (c as int + 32) as char else c
  }

  predicate IsLowerCase(s: string) {
    forall i :: 0 <= i < |s| ==> !IsUpper(s[i])
  }

  /** The normalised form of a header name under which a response stores it. */
  function Lower(s: string): (r: string)
    ensures |r| == |s|
    ensures forall i :: 0 <= i < |s| ==> r[i] == LowerChar(s[i])
    ensures IsLowerCase(r)
    ensures IsLowerCase(s) ==> r == s
  {
    seq(|s|, i requires 0 <= i < |s| => LowerChar(s[i]))
  }

  /** The single line that `getHeaderLine` builds from a header's values: joined with ", ". */
  function JoinValues(values: seq<string>): (line: string)
    ensures values == [] ==> line == []
    ensures |values| == 1 ==> line == values[0]
    ensures |values| == 2 ==> line == values[0] + ", " + values[1]
    ensures |values| > 0 ==> values[0] <= line
  {
    if values == [] then []
    else if |values| == 1 then values[0]
    else values[0] + ", " + JoinValues(values[1..])
  }

  datatype Body = Buffered(bytes: seq<byte>) | Streaming

  /**
   * A response. Header names are the keys of `headers` in lower case, so that
   * `HasHeader`, `HeaderLine` and `WithHeader` ignore the case of the name they are given.
   */
  datatype Response = Response(status: nat, headers: map<string, seq<string>>, body: Body)
  {
    /** Every stored header name is normalised. */
    predicate WellFormed() {
      forall name :: name in headers ==> IsLowerCase(name)
    }

    /** `hasHeader`: whether a header of that name is present, whatever the case of the name. */
    predicate HasHeader(name: string)
      ensures WellFormed() ==> (HasHeader(name) <==> exists key :: key in headers && Lower(key) == Lower(name))
    {
      Lower(name) in headers
    }

    /** `getHeaderLine`: the values of the header joined by ", ", or "" when it is absent. */
    function HeaderLine(name: string): (line: string)
      ensures !HasHeader(name) ==> line == []
      ensures HasHeader(name) && |headers[Lower(name)]| == 1 ==> line == headers[Lower(name)][0]
    {
      if Lower(name) in headers then JoinValues(headers[Lower(name)]) else []
    }

    /** `withHeader`: a copy in which `name` has the single value `value`, replacing any earlier one. */
    function WithHeader(name: string, value: string): (r: Response)
      ensures r.status == status && r.body == body
      ensures r.HasHeader(name) && r.HeaderLine(name) == value
      ensures forall other :: Lower(other) != Lower(name) ==>
        r.HasHeader(other) == HasHeader(other) && r.HeaderLine(other) == HeaderLine(other)
      ensures r.headers.Keys == headers.Keys + {Lower(name)}
      ensures WellFormed() ==> r.WellFormed()
    {
      this.(headers := headers[Lower(name) := [value]])
    }

    /** `withBody`: a copy with another body and the same status and headers. */
    function WithBody(b: Body): (r: Response)
      ensures r.body == b && r.status == status && r.headers == headers
      ensures forall name :: r.HasHeader(name) == HasHeader(name) && r.HeaderLine(name) == HeaderLine(name)
    {
      this.(body := b)
    }
  }

  /** The case of a header name never matters to a lookup. */
  lemma HeaderLookupIgnoresCase(r: Response, a: string, b: string)
    requires Lower(a) == Lower(b)
    ensures r.HasHeader(a) == r.HasHeader(b) && r.HeaderLine(a) == r.HeaderLine(b)
  {
  }
}
