/** The request-content-length stage: it rejects a request whose declared
    length is missing (for PUT and POST) or too large, wraps the request body
    in a content-length limiting stream, and turns the faults of that stream
    into 411 and 413 when the downstream stages read too much. */
module RequestContentLength {
  import opened Http
  import opened ContentLength

  /** The request body the downstream stages see: the body as it came, or the
      body wrapped in a limiting stream with the given maximum. */
  datatype Body = Raw | LimitedTo(limit: int)

  /** How a call of the downstream stages ends. */
  datatype Completion = Completed | Failed(fault: LengthFault) | FailedOther

  /** What the stage reads of a request: its method, its Transfer-Encoding
      header, and its Content-Length (None when absent or not a number). */
  datatype Request = Request(httpMethod: string, transferEncoding: Option<string>, contentLength: Option<nat>)

  /** What the stage does with one exchange: the bodies it hands downstream,
      one per call, in order; the status code it sets, if any; and whether an
      exception leaves the stage. */
  datatype StageRun = StageRun(forwarded: seq<Body>, status: Option<int>, escapes: bool)

  /** `request.Method.Trim().ToUpperInvariant()`. */
  function NormalizedMethod(httpMethod: string): string {
    ToUpperInvariant(Trim(httpMethod))
  }

  /** The compared method has no white space at its ends and no lower-case
      letter, so only the letters' case and the padding are ignored. */
  lemma NormalizedMethodShape(httpMethod: string)
    ensures var m := NormalizedMethod(httpMethod);
      |m| <= |httpMethod| &&
      (m == [] || (!IsWhiteSpace(m[0]) && !IsWhiteSpace(m[|m| - 1]))) &&
      forall i :: 0 <= i < |m| ==> !IsAsciiLower(m[i])
  {
  }

  /** The Transfer-Encoding header is "chunked", ignoring case; a list of
      codings is not searched. */
  predicate IsChunkedRequest(transferEncoding: Option<string>) {
    transferEncoding.Some? && EqualsIgnoreCase(transferEncoding.value, "chunked")
  }

  /** One call of the downstream stages inside the stage's try block: the two
      length faults become 411 and 413, any other exception leaves the stage. */
  function Forward(body: Body, next: Body -> Completion): (r: StageRun)
    ensures r.forwarded == [body]
    ensures r.escapes <==> next(body) == FailedOther
    ensures r.status == Some(LengthRequired) <==> next(body) == Failed(ContentLengthRequired)
    ensures r.status == Some(PayloadTooLarge) <==> next(body) == Failed(ContentLengthExceeded)
    ensures r.status.Some? ==> next(body).Failed?
  {
    match next(body)
    case Completed => StageRun([body], None, false)
    case Failed(ContentLengthRequired) => StageRun([body], Some(LengthRequired), false)
    case Failed(ContentLengthExceeded) => StageRun([body], Some(PayloadTooLarge), false)
    case FailedOther => StageRun([body], None, true)
  }

  /** The checks that follow the HEAD shortcut, for the normalized method `m`. */
  function CheckAndForward(m: string, request: Request, max: int, next: Body -> Completion): (r: StageRun)
    ensures |r.forwarded| <= 1
    ensures r.forwarded == [] ==> !r.escapes && !IsChunkedRequest(request.transferEncoding)
    ensures forall b :: b in r.forwarded ==> b == LimitedTo(max) || b == LimitedTo(0)
  {
    if !IsChunkedRequest(request.transferEncoding) then
      match request.contentLength
      case None =>
        if m == "PUT" || m == "POST" then StageRun([], Some(LengthRequired), false)
        else Forward(LimitedTo(0), next)
      case Some(length) =>
        if length > max then StageRun([], Some(PayloadTooLarge), false)
        else Forward(LimitedTo(max), next)
    else
      Forward(LimitedTo(max), next)
  }

  /** The stage as written. A HEAD request is handed downstream first, with its
      body untouched; as nothing returns after that call, the checks then run
      as for any other request. */
  function MaxRequestContentLength(request: Request, max: int, next: Body -> Completion): (r: StageRun)
    ensures |r.forwarded| <= 2
    ensures NormalizedMethod(request.httpMethod) != "HEAD" ==> Raw !in r.forwarded
    ensures NormalizedMethod(request.httpMethod) == "HEAD" ==> r.forwarded != [] && r.forwarded[0] == Raw
  {
    var m := NormalizedMethod(request.httpMethod);
    if m == "HEAD" && next(Raw) != Completed then
      StageRun([Raw], None, true)
    else
      var checked := CheckAndForward(m, request, max, next);
      if m == "HEAD" then checked.(forwarded := [Raw] + checked.forwarded) else checked
  }

  /** The stage as evidently intended: a HEAD request is handed downstream
      once, untouched, and nothing else happens to it. */
  function MaxRequestContentLengthFixed(request: Request, max: int, next: Body -> Completion): (r: StageRun)
    ensures |r.forwarded| <= 1
    ensures NormalizedMethod(request.httpMethod) == "HEAD" ==>
      r == StageRun([Raw], None, next(Raw) != Completed)
  {
    var m := NormalizedMethod(request.httpMethod);
    if m == "HEAD" then StageRun([Raw], None, next(Raw) != Completed)
    else CheckAndForward(m, request, max, next)
  }

  /** Off HEAD the corrected stage is the stage as written. */
  lemma FixedAgreesOffHead(request: Request, max: int, next: Body -> Completion)
    requires NormalizedMethod(request.httpMethod) != "HEAD"
    ensures MaxRequestContentLengthFixed(request, max, next) == MaxRequestContentLength(request, max, next)
  {
  }

  /** A HEAD request without Content-Length whose downstream completes is
      handed downstream twice: first with its body untouched, then with its
      body limited to 0 bytes. */
  lemma HeadIsForwardedTwice(request: Request, max: int, next: Body -> Completion)
    requires NormalizedMethod(request.httpMethod) == "HEAD"
    requires !IsChunkedRequest(request.transferEncoding) && request.contentLength == None
    requires next(Raw) == Completed
    ensures MaxRequestContentLength(request, max, next).forwarded == [Raw, LimitedTo(0)]
  {
  }

  /** A HEAD request declaring more than the maximum is handed downstream with
      its body untouched and is then answered 413. */
  lemma HeadTooLargeAnsweredAfterDownstream(request: Request, max: int, next: Body -> Completion)
    requires NormalizedMethod(request.httpMethod) == "HEAD"
    requires !IsChunkedRequest(request.transferEncoding)
    requires request.contentLength.Some? && request.contentLength.value > max
    requires next(Raw) == Completed
    ensures MaxRequestContentLength(request, max, next) == StageRun([Raw], Some(PayloadTooLarge), false)
  {
  }

  /** A PUT or POST that is not chunked and has no usable Content-Length is
      answered 411 and the downstream stages are not called. */
  lemma LengthRequiredForPutAndPost(request: Request, max: int, next: Body -> Completion)
    requires NormalizedMethod(request.httpMethod) in {"PUT", "POST"}
    requires !IsChunkedRequest(request.transferEncoding) && request.contentLength == None
    ensures MaxRequestContentLength(request, max, next) == StageRun([], Some(LengthRequired), false)
  {
  }

  /** Any other method without Content-Length is forwarded with its body
      limited to 0 bytes. */
  lemma OtherMethodsLimitedToNothing(request: Request, max: int, next: Body -> Completion)
    requires NormalizedMethod(request.httpMethod) !in {"PUT", "POST", "HEAD"}
    requires !IsChunkedRequest(request.transferEncoding) && request.contentLength == None
    ensures MaxRequestContentLength(request, max, next) == Forward(LimitedTo(0), next)
  {
  }

  /** A request that is not chunked and declares more than the maximum is
      answered 413 and the downstream stages are not called. */
  lemma DeclaredLengthTooLarge(request: Request, max: int, next: Body -> Completion)
    requires NormalizedMethod(request.httpMethod) != "HEAD"
    requires !IsChunkedRequest(request.transferEncoding)
    requires request.contentLength.Some? && request.contentLength.value > max
    ensures MaxRequestContentLength(request, max, next) == StageRun([], Some(PayloadTooLarge), false)
  {
  }

  /** A request that is not chunked and declares at most the maximum is
      forwarded with its body limited to the maximum. */
  lemma DeclaredLengthAccepted(request: Request, max: int, next: Body -> Completion)
    requires NormalizedMethod(request.httpMethod) != "HEAD"
    requires !IsChunkedRequest(request.transferEncoding)
    requires request.contentLength.Some? && request.contentLength.value <= max
    ensures MaxRequestContentLength(request, max, next) == Forward(LimitedTo(max), next)
  {
  }

  /** A chunked request skips the header check, whatever it declares, and is
      forwarded with its body limited to the maximum. */
  lemma ChunkedSkipsHeaderCheck(request: Request, max: int, next: Body -> Completion)
    requires NormalizedMethod(request.httpMethod) != "HEAD"
    requires IsChunkedRequest(request.transferEncoding)
    ensures MaxRequestContentLength(request, max, next) == Forward(LimitedTo(max), next)
  {
  }

  /** A chunked request has a Transfer-Encoding header of exactly as many
      characters as "chunked": a list of codings never counts. */
  lemma ChunkedHeaderIsExact(transferEncoding: Option<string>)
    requires IsChunkedRequest(transferEncoding)
    ensures transferEncoding.Some? && |transferEncoding.value| == |"chunked"|
  {
  }

  /** Only an exact "chunked", in any case, makes a request chunked. */
  lemma ChunkedHeaderExamples()
    ensures IsChunkedRequest(Some("chunked")) && IsChunkedRequest(Some("Chunked"))
    ensures !IsChunkedRequest(Some("gzip, chunked")) && !IsChunkedRequest(None)
  {
    assert ToUpperInvariant("chunked") == "CHUNKED";
    assert ToUpperInvariant("Chunked") == "CHUNKED";
    assert |ToUpperInvariant("gzip, chunked")| != |ToUpperInvariant("chunked")|;
  }

  /** One space on each side of a word is trimmed away. */
  lemma TrimmedPadded(word: string)
    requires word != [] && !IsWhiteSpace(word[0]) && !IsWhiteSpace(word[|word| - 1])
    ensures Trim([' '] + word + [' ']) == word
  {
    var padded := [' '] + word + [' '];
    assert padded[1..] == word + [' '];
    assert TrimStart(padded[1..]) == word + [' '];
    assert (word + [' '])[..|word|] == word;
  }

  lemma TrimmedPost()
    ensures Trim(" post ") == "post"
  {
    TrimmedPadded("post");
    assert [' '] + "post" + [' '] == " post ";
  }

  lemma UpperPost()
    ensures ToUpperInvariant("post") == "POST"
  {
    var upper := ToUpperInvariant("post");
    assert upper[0] == 'P' && upper[1] == 'O' && upper[2] == 'S' && upper[3] == 'T';
  }

  /** The method is trimmed and upper-cased before it is compared. */
  lemma MethodIsNormalized()
    ensures NormalizedMethod(" post ") == "POST"
  {
    TrimmedPost();
    UpperPost();
  }

  /** A downstream stage that reads the request body to its end, in reads that
      return `counts` bytes and then 0 at the end of the body. */
  function ReadsBodyToEnd(counts: seq<nat>): Body -> Completion {
    (body: Body) =>
      match body
      case Raw => Completed
      case LimitedTo(limit) =>
        match FirstFault(0, limit, counts + [0])
        case None => Completed
        case Some(f) => Failed(f)
  }

  lemma {:induction false} SumAppend(a: seq<nat>, b: seq<nat>)
    ensures Sum(a + b) == Sum(a) + Sum(b)
    decreases |a|
  {
    if a == [] {
      assert a + b == b;
    } else {
      SumAppend(a[1..], b);
      assert (a + b)[1..] == a[1..] + b;
    }
  }

  /** Reading a body of `Sum(counts)` bytes through a limiting stream with a
      maximum that is not negative fails exactly when the body passes it. */
  lemma {:induction false} ReadToEndOutcome(counts: seq<nat>, limit: int)
    requires limit >= 0
    ensures ReadsBodyToEnd(counts)(LimitedTo(limit)) ==
      match Validate(Sum(counts), limit)
      case None => Completed
      case Some(f) => Failed(f)
  {
    FirstFaultIsFinalCheck(0, limit, counts + [0]);
    SumAppend(counts, [0]);
    assert Sum([0]) == 0;
  }

  /** When every body is read to its end, a request other than HEAD that the
      stage lets through without a status has a body of at most the maximum. */
  lemma ServedBodiesStayWithinLimit(request: Request, max: int, counts: seq<nat>)
    requires max >= 0
    requires NormalizedMethod(request.httpMethod) != "HEAD"
    ensures var r := MaxRequestContentLength(request, max, ReadsBodyToEnd(counts));
      r.forwarded != [] && r.status == None ==> Sum(counts) <= max
  {
    ReadToEndOutcome(counts, max);
    ReadToEndOutcome(counts, 0);
    SumNonNegative(counts);
  }

  /** A chunked request whose body passes the maximum is answered 413 once the
      body is read (411 when the maximum is 0), though no length was declared. */
  lemma ChunkedOversizeRejected(request: Request, max: int, counts: seq<nat>)
    requires max >= 0
    requires NormalizedMethod(request.httpMethod) != "HEAD"
    requires IsChunkedRequest(request.transferEncoding)
    requires Sum(counts) > max
    ensures var r := MaxRequestContentLength(request, max, ReadsBodyToEnd(counts));
      r.forwarded == [LimitedTo(max)] && !r.escapes &&
      r.status == Some(if max == 0 then LengthRequired else PayloadTooLarge)
  {
    ReadToEndOutcome(counts, max);
  }

  /** A PUT that is not chunked and declares a length at most the maximum, whose
      body is that long, is served. */
  lemma DeclaredBodyWithinLimitServed(request: Request, max: int, counts: seq<nat>)
    requires NormalizedMethod(request.httpMethod) == "PUT"
    requires !IsChunkedRequest(request.transferEncoding)
    requires request.contentLength == Some(Sum(counts)) && Sum(counts) <= max
    ensures MaxRequestContentLength(request, max, ReadsBodyToEnd(counts)) == StageRun([LimitedTo(max)], None, false)
  {
    SumNonNegative(counts);
    ReadToEndOutcome(counts, max);
  }

  /** The parts of an exchange the stage changes. */
  class Exchange {
    var requestBody: Body
    var statusCode: int

    constructor (statusCode: int)
      ensures requestBody == Raw && this.statusCode == statusCode
    {
      requestBody := Raw;
      this.statusCode := statusCode;
    }
  }

  /** The body the exchange ends with after a run: the last one handed
      downstream, or the one it had when none was. */
  function FinalBody(r: StageRun, before: Body): Body {
    if r.forwarded == [] then before else r.forwarded[|r.forwarded| - 1]
  }

  /** The status the exchange ends with after a run. */
  function FinalStatus(r: StageRun, before: int): int {
    if r.status.Some? then r.status.value else before
  }

  /** The stage applied to an exchange: it replaces the request body before
      each downstream call and sets the status it decides on. Returns whether
      an exception leaves the stage. */
  method Invoke(exchange: Exchange, request: Request, max: int, next: Body -> Completion)
    returns (escapes: bool)
    modifies exchange
    ensures escapes == MaxRequestContentLength(request, max, next).escapes
    ensures exchange.requestBody == FinalBody(MaxRequestContentLength(request, max, next), old(exchange.requestBody))
    ensures exchange.statusCode == FinalStatus(MaxRequestContentLength(request, max, next), old(exchange.statusCode))
  {
    var requestMethod := NormalizedMethod(request.httpMethod);
    if requestMethod == "HEAD" {
      exchange.requestBody := Raw;
      if next(Raw) != Completed {
        return true;
      }
    }
    escapes := CheckAndInvoke(exchange, requestMethod, request, max, next);
  }

  /** The part of `Invoke` after the HEAD shortcut. */
  method CheckAndInvoke(exchange: Exchange, requestMethod: string, request: Request, max: int, next: Body -> Completion)
    returns (escapes: bool)
    modifies exchange
    ensures escapes == CheckAndForward(requestMethod, request, max, next).escapes
    ensures exchange.requestBody == FinalBody(CheckAndForward(requestMethod, request, max, next), old(exchange.requestBody))
    ensures exchange.statusCode == FinalStatus(CheckAndForward(requestMethod, request, max, next), old(exchange.statusCode))
  {
    if !IsChunkedRequest(request.transferEncoding) {
      if request.contentLength.None? {
        if requestMethod == "PUT" || requestMethod == "POST" {
          exchange.statusCode := LengthRequired;
          return false;
        }
        exchange.requestBody := LimitedTo(0);
      } else {
        if request.contentLength.value > max {
          exchange.statusCode := PayloadTooLarge;
          return false;
        }
        exchange.requestBody := LimitedTo(max);
      }
    } else {
      exchange.requestBody := LimitedTo(max);
    }
    match next(exchange.requestBody)
    case Completed => escapes := false;
    case Failed(ContentLengthRequired) =>
      exchange.statusCode := LengthRequired;
      escapes := false;
    case Failed(ContentLengthExceeded) =>
      exchange.statusCode := PayloadTooLarge;
      escapes := false;
    case FailedOther => escapes := true;
  }
}
