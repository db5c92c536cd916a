/**
 * The few pieces of the Java platform and of Spring's utilities that the
 * helper's logic depends on: nullable references, exceptions, the
 * whitespace test behind StringUtils.hasText, decimal rendering of numbers
 * and String.hashCode.
 */
module JavaLang {

  /** A nullable reference: None stands for Java's null. */
  datatype Option<+T> = None | Some(value: T)

  /** A java.lang.String that may be null. */
  type JString = Option<string>

  /** The exceptions that the modelled code throws or lets through. */
  datatype Exception =
    | ResponseException(rawStatusCode: int)  // RestClientResponseException: the upstream answered with an error status
    | TransportException                     // any other RestClientException (I/O failure, unreadable response)
    | IllegalState                           // IllegalStateException raised by an argument check of the helper itself
    | RuntimeFault                           // any other unchecked exception

  /** RestClientResponseException and every other RestClientException. */
  predicate IsRestClientException(e: Exception) {
    e.ResponseException? || e.TransportException?
  }

  /** What a Java call does: return a value or throw. */
  datatype Call<+T> = Returns(value: T) | Throws(error: Exception)

  /**
   * Character.isWhitespace: Unicode space, line and paragraph separators
   * except the three non-breaking spaces, plus the ASCII controls
   * U+0009..U+000D and U+001C..U+001F.
   */
  predicate IsWhitespace(c: char) {
    || c == ' '
    || ('\t' <= c <= '\r')
    || ('\U{001C}' <= c <= '\U{001F}')
    || c == '\U{1680}'
    || ('\U{2000}' <= c <= '\U{2006}')
    || ('\U{2008}' <= c <= '\U{200A}')
    || c == '\U{2028}' || c == '\U{2029}'
    || c == '\U{205F}' || c == '\U{3000}'
  }

  /** StringUtils.hasText: not null and holding at least one non-whitespace character. */
  predicate HasText(s: JString) {
    s.Some? && exists i :: 0 <= i < |s.value| && !IsWhitespace(s.value[i])
  }

  /** The decimal digit character for d. */
  function DigitChar(d: nat): (c: char)
    requires d < 10
    ensures '0' <= c <= '9'
    ensures c as int - '0' as int == d
  {
    ('0' as int + d) as char
  }

  /** Decimal digits of a natural number, most significant first. */
  function NatToString(n: nat): (s: string)
    ensures |s| > 0
    ensures forall i :: 0 <= i < |s| ==> '0' <= s[i] <= '9'
  {
    if n < 10 then [DigitChar(n)] else NatToString(n / 10) + [DigitChar(n % 10)]
  }

  /** Integer.toString and Long.toString: an optional minus sign, then the decimal digits. */
  function IntToString(n: int): (s: string)
    ensures |s| > 0
    ensures (s[0] == '-') <==> n < 0
  {
    if n < 0 then "-" + NatToString(-n) else NatToString(n)
  }

  /** Distinct naturals have distinct digit strings. */
  lemma {:induction false} NatToStringInjective(a: nat, b: nat)
    ensures NatToString(a) == NatToString(b) <==> a == b
    decreases a
  {
    if NatToString(a) == NatToString(b) {
      var s := NatToString(a);
      if a < 10 || b < 10 {
        assert a < 10 && b < 10;
        assert DigitChar(a) == s[0] == DigitChar(b);
      } else {
        assert s[|s| - 1] == DigitChar(a % 10) == DigitChar(b % 10);
        assert s[..|s| - 1] == NatToString(a / 10) == NatToString(b / 10);
        NatToStringInjective(a / 10, b / 10);
      }
    }
  }

  /** Long.toString is injective: distinct ids render as distinct strings. */
  lemma IntToStringInjective(a: int, b: int)
    ensures IntToString(a) == IntToString(b) <==> a == b
  {
    if IntToString(a) == IntToString(b) {
      if a < 0 {
        assert b < 0;
        assert IntToString(a)[1..] == NatToString(-a);
        assert IntToString(b)[1..] == NatToString(-b);
        NatToStringInjective(-a, -b);
      } else {
        NatToStringInjective(a, b);
      }
    }
  }

  const TWO_TO_THE_32: int := 0x1_0000_0000
  const TWO_TO_THE_31: int := 0x8000_0000

  /** Java's 32-bit two's-complement wrap-around of an int result. */
  function WrapInt32(x: int): (r: int)
    ensures -TWO_TO_THE_31 <= r < TWO_TO_THE_31
    ensures (x - r) % TWO_TO_THE_32 == 0
  {
    var m := x % TWO_TO_THE_32;
    if m < TWO_TO_THE_31 then m else m - TWO_TO_THE_32
  }

  /** The UTF-16 code units a Java string stores for the given characters. */
  function Utf16Units(s: string): (u: seq<int>)
    ensures |u| >= |s|
  {
    if s == [] then []
    else
      var c := s[0] as int;
      var head := if c < 0x1_0000 then [c]
                  else [0xD800 + (c - 0x1_0000) / 0x400, 0xDC00 + (c - 0x1_0000) % 0x400];
      head + Utf16Units(s[1..])
  }

  /** h := 31 * h + unit over the code units, in int arithmetic. */
  function HashUnits(units: seq<int>, h: int): int
    decreases |units|
  {
    if units == [] then h else HashUnits(units[1..], WrapInt32(31 * h + units[0]))
  }

  /** String.hashCode. */
  function StringHashCode(s: string): (h: int)
    ensures s == [] ==> h == 0
  {
    HashUnits(Utf16Units(s), 0)
  }
}
