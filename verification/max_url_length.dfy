/** The URL stage: a request whose absolute URI, percent-decoded, is longer
    than the maximum gets the status 414, and is handed downstream all the
    same. */
module UrlLength {
  import opened Http
  import opened PercentDecoding

  /** The status the stage sets, if any, and whether it calls downstream. */
  datatype UrlRun = UrlRun(status: Option<int>, forwarded: bool)

  /** `absoluteUri` is the request's absolute URI, as the URI class writes it
      (scheme, host, a path of at least "/", query). */
  function MaxUrlLength(absoluteUri: string, max: int): (r: UrlRun)
    ensures r.status.Some? ==> r.status.value == UriTooLong
  {
    var tooLong := |Unescape(absoluteUri)| > max;
    UrlRun(if tooLong then Some(UriTooLong) else None, true)
  }

  /** The status is 414 exactly when the decoded URI is longer than the
      maximum (a length equal to the maximum passes), and downstream is called
      in both cases. */
  lemma RejectedIffDecodedTooLong(absoluteUri: string, max: int)
    ensures MaxUrlLength(absoluteUri, max).status == Some(UriTooLong) <==> |Unescape(absoluteUri)| > max
    ensures MaxUrlLength(absoluteUri, max).status == None <==> |Unescape(absoluteUri)| <= max
    ensures MaxUrlLength(absoluteUri, max).forwarded
  {
  }

  /** A URI of `prefix` followed by escaped characters is measured decoded. */
  lemma {:induction false} EscapesMeasuredDecoded(prefix: string, s: string, max: int)
    requires '%' !in prefix
    requires forall i :: 0 <= i < |s| ==> s[i] as int < 256
    requires max >= |prefix| + |s|
    ensures MaxUrlLength(prefix + Escape(s), max) == UrlRun(None, true)
  {
    PrefixThenEscapes(prefix, s);
  }

  /** The scenarios of the stage's tests, under a maximum of 20: a short URL
      passes and a 39-character one gets 414. */
  lemma PlainUrlScenarios()
    ensures MaxUrlLength("http://example.com/", 20) == UrlRun(None, true)
    ensures MaxUrlLength("http://example.com/example/example.html", 20) == UrlRun(Some(UriTooLong), true)
  {
    UnescapeWithoutPercent("http://example.com/");
    UnescapeWithoutPercent("http://example.com/example/example.html");
  }

  /** With a maximum of 30 a URL of 43 characters that decodes to 29 passes:
      the URL ends in "%48%49%50%51%52%53%54", the escaped form of "HIPQRST"
      (`SevenEscapes`). */
  lemma EscapedUrlScenario()
    ensures MaxUrlLength("http://example.com/?q=" + Escape("HIPQRST"), 30) == UrlRun(None, true)
    ensures |"http://example.com/?q=" + Escape("HIPQRST")| == 43
  {
    var prefix, plain := "http://example.com/?q=", "HIPQRST";
    assert '%' !in prefix;
    assert forall i :: 0 <= i < |plain| ==> plain[i] as int < 256;
    EscapesMeasuredDecoded(prefix, plain, 30);
  }
}
