/** Vocabulary shared by every stage of the limits middleware: optional values,
    bytes, the HTTP status codes the stages set, and the small amount of
    ASCII text handling the stages need (trim, upper-case, case-insensitive
    comparison). */
module Http {

  datatype Option<+T> = None | Some(value: T)

  /** One octet of a request or response body. */
  newtype byte = x: int | 0 <= x < 256

  /** 411 Length Required. */
  const LengthRequired: int := 411
  /** 413 Payload Too Large ("Request Entity Too Large"). */
  const PayloadTooLarge: int := 413
  /** 414 URI Too Long ("Request-URI Too Long"). */
  const UriTooLong: int := 414
  /** 503 Service Unavailable. */
  const ServiceUnavailable: int := 503

  /** `int.MaxValue` of the source's 32-bit integers. */
  const IntMaxValue: int := 0x7FFF_FFFF

  predicate IsWhiteSpace(c: char) {
    c == ' ' || c == '\t' || c == '\n' || c == '\r' || c == '\U{0B}' || c == '\U{0C}'
  }

  predicate IsAsciiLower(c: char) {
    'a' <= c <= 'z'
  }

  function ToUpper(c: char): (u: char)
    ensures IsAsciiLower(c) ==> u as int == c as int - 32
    ensures !IsAsciiLower(c) ==> u == c
  {
    if IsAsciiLower(c) then (c as int - 32) as char else c
  }

  /** Upper-cases every ASCII letter and leaves every other character as it is. */
  function ToUpperInvariant(s: string): (r: string)
    ensures |r| == |s|
    ensures forall i :: 0 <= i < |s| ==> r[i] == ToUpper(s[i])
  {
    seq(|s|, i requires 0 <= i < |s| => ToUpper(s[i]))
  }

  /** Drops leading white space. */
  function TrimStart(s: string): (r: string)
    ensures |r| <= |s| && r == s[|s| - |r|..]
    ensures r == [] || !IsWhiteSpace(r[0])
    ensures forall i :: 0 <= i < |s| - |r| ==> IsWhiteSpace(s[i])
  {
    if s != [] && IsWhiteSpace(s[0]) then TrimStart(s[1..]) else s
  }

  /** Drops trailing white space. */
  function TrimEnd(s: string): (r: string)
    ensures |r| <= |s| && r == s[..|r|]
    ensures r == [] || !IsWhiteSpace(r[|r| - 1])
    ensures forall i :: |r| <= i < |s| ==> IsWhiteSpace(s[i])
  {
    if s != [] && IsWhiteSpace(s[|s| - 1]) then TrimEnd(s[..|s| - 1]) else s
  }

  /** `String.Trim()`: drops white space at both ends. */
  function Trim(s: string): (r: string)
    ensures |r| <= |s|
    ensures r == [] || (!IsWhiteSpace(r[0]) && !IsWhiteSpace(r[|r| - 1]))
  {
    var t := TrimStart(s);
    var r := TrimEnd(t);
    assert r != [] ==> r[0] == t[0];
    r
  }

  /** `String.Equals(other, StringComparison.OrdinalIgnoreCase)` on ASCII text. */
  predicate EqualsIgnoreCase(a: string, b: string) {
    ToUpperInvariant(a) == ToUpperInvariant(b)
  }
}
