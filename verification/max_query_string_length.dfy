/** The query-string stage: a request whose query string, percent-decoded, is
    longer than the maximum is answered 414 and goes no further. */
module QueryStringLength {
  import opened Http
  import opened PercentDecoding

  /** What the stage does with a request: hand it downstream, or answer it
      with a status and stop. */
  datatype Verdict = Forward | Reject(status: int)

  /** `queryString` is `QueryString.Value`: empty when the request has no query
      string, and otherwise starting with its `?`, which counts towards the
      length. The maximum is asked for only when there is a query string. */
  function MaxQueryStringLength(queryString: string, getMax: () -> int): (v: Verdict)
    ensures v.Reject? ==> v.status == UriTooLong
  {
    if queryString == [] then Forward
    else if |Unescape(queryString)| > getMax() then Reject(UriTooLong)
    else Forward
  }

  /** Without a query string the request is forwarded, whatever the maximum. */
  lemma NoQueryStringIsForwarded(getMax: () -> int)
    ensures MaxQueryStringLength([], getMax) == Forward
  {
  }

  /** With a query string the request is rejected exactly when the decoded
      query string is longer than the maximum: a length equal to the maximum
      is served. */
  lemma RejectedIffDecodedTooLong(queryString: string, getMax: () -> int)
    requires queryString != []
    ensures MaxQueryStringLength(queryString, getMax) == Reject(UriTooLong) <==> |Unescape(queryString)| > getMax()
    ensures MaxQueryStringLength(queryString, getMax) == Forward <==> |Unescape(queryString)| <= getMax()
  {
  }

  /** Lengths are measured after decoding: a query string of `prefix` followed
      by `n` escaped characters is served under a maximum of `|prefix| + n`,
      although its escaped form is three times as long in its escaped part. */
  lemma {:induction false} EscapesMeasuredDecoded(prefix: string, s: string, getMax: () -> int)
    requires prefix != [] && '%' !in prefix
    requires forall i :: 0 <= i < |s| ==> s[i] as int < 256
    requires getMax() == |prefix| + |s|
    ensures MaxQueryStringLength(prefix + Escape(s), getMax) == Forward
    ensures |prefix + Escape(s)| == |prefix| + 3 * |s|
  {
    PrefixThenEscapes(prefix, s);
  }

  /** The scenarios of the stage's tests: with a maximum of 10, "?q=1234567"
      is served and "?q=123456789" is rejected; with 5, "?q=123456" is rejected. */
  lemma PlainQueryScenarios()
    ensures MaxQueryStringLength("?q=1234567", () => 10) == Forward
    ensures MaxQueryStringLength("?q=123456789", () => 10) == Reject(UriTooLong)
    ensures MaxQueryStringLength("?q=123456", () => 5) == Reject(UriTooLong)
  {
    UnescapeWithoutPercent("?q=1234567");
    UnescapeWithoutPercent("?q=123456789");
    UnescapeWithoutPercent("?q=123456");
  }

  /** With a maximum of 10, "?q=%48%49%50%51%52%53%54", the escaped form of
      "?q=HIPQRST" (`SevenEscapes`), 24 characters and 10 once decoded, is served. */
  lemma EscapedQueryScenario()
    ensures MaxQueryStringLength("?q=" + Escape("HIPQRST"), () => 10) == Forward
    ensures |"?q=" + Escape("HIPQRST")| == 24
  {
    var prefix, plain := "?q=", "HIPQRST";
    assert '%' !in prefix;
    assert forall i :: 0 <= i < |plain| ==> plain[i] as int < 256;
    EscapesMeasuredDecoded(prefix, plain, () => 10);
  }
}
