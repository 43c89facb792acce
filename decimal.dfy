/**
 * Decimal rendering of a byte count, as PHP's `(string) strlen(...)` produces it
 * for the `Content-Length` header, and the parse that reads such a header back.
 */
module Decimal {
  import opened Wrappers

  predicate IsDigit(c: char) {
    '0' <= c <= '9'
  }

  predicate AllDigits(s: string) {
    forall i :: 0 <= i < |s| ==> IsDigit(s[i])
  }

  /** A decimal numeral without superfluous leading zeros: what rendering a count yields. */
  predicate IsCanonical(s: string) {
    |s| > 0 && AllDigits(s) && (|s| == 1 || s[0] != '0')
  }

  function DigitChar(d: nat): (c: char)
    requires d < 10
    ensures IsDigit(c) && c as int - '0' as int == d
  {
    ('0' as int + d) as char
  }

  function DigitValue(c: char): (d: nat)
    requires IsDigit(c)
    ensures d < 10 && DigitChar(d) == c
  {
    c as int - '0' as int
  }

  /** The decimal numeral of `n`, most significant digit first. */
  function Render(n: nat): (s: string)
    ensures IsCanonical(s)
    ensures n < 10 <==> |s| == 1
    decreases n
  {
    if n < 10 then [DigitChar(n)] else Render(n / 10) + [DigitChar(n % 10)]
  }

  /** The number a string of digits denotes (the empty string denotes 0). */
  function Value(s: string): nat
    requires AllDigits(s)
  {
    if s == [] then 0 else Value(s[..|s| - 1]) * 10 + DigitValue(s[|s| - 1])
  }

  /** Reads a header value back as a byte count: defined exactly on non-empty digit strings. */
  function Parse(s: string): (r: Option<nat>)
    ensures r.Some? <==> |s| > 0 && AllDigits(s)
  {
    if |s| > 0 && AllDigits(s) then Some(Value(s)) else None
  }

  /** Reading back a rendered count gives the count. */
  lemma {:induction false} ParseRender(n: nat)
    ensures Parse(Render(n)) == Some(n)
    decreases n
  {
    var s := Render(n);
    if n >= 10 {
      ParseRender(n / 10);
      assert s[..|s| - 1] == Render(n / 10);
      assert Value(s) == (n / 10) * 10 + n % 10;
    }
  }

  /** A numeral whose first digit is not zero denotes a positive number. */
  lemma {:induction false} ValuePositive(s: string)
    requires |s| > 0 && AllDigits(s) && s[0] != '0'
    ensures Value(s) > 0
    decreases |s|
  {
    if |s| > 1 {
      ValuePositive(s[..|s| - 1]);
    }
  }

  /** Every canonical numeral is the rendering of the number it parses to. */
  lemma {:induction false} RenderParse(s: string)
    requires IsCanonical(s)
    ensures Parse(s).Some? && Render(Parse(s).value) == s
    decreases |s|
  {
    var n := Value(s);
    if |s| > 1 {
      var p := s[..|s| - 1];
      ValuePositive(p);
      RenderParse(p);
      assert n / 10 == Value(p) && n % 10 == DigitValue(s[|s| - 1]);
      assert s == p + [s[|s| - 1]];
    } else {
      assert Value(s[..0]) == 0;
      assert n == DigitValue(s[0]);
    }
  }

  /** Rendering is injective: distinct counts give distinct numerals. */
  lemma RenderInjective(m: nat, n: nat)
    ensures Render(m) == Render(n) ==> m == n
  {
    ParseRender(m);
    ParseRender(n);
  }
}
