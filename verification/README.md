# LimitsMiddleware in Dafny

This project models the resource limits of the LimitsMiddleware library for
ASP.NET Core, and proves properties of the model:

- **Fixed token bucket.** A one-second budget of tokens with a lazy refill.
- **Throttled stream.** It cuts every write into pieces of at most one second's worth of bytes, and paces each piece through the bucket.
- **Content-length limiting stream.** It counts the bytes read through it and fails once the count passes a maximum.
- **Request-content-length stage.** It answers 411 or 413, or wraps the request body in the limiting stream.
- **Concurrent-requests stage.** A shared counter that answers 503 above a ceiling.
- **Query-string and URL length stages.** They compare the length of percent-decoded text with a maximum and answer 414.

One Dafny module per source file:

| file | module | models |
|---|---|---|
| `fixed_token_bucket.dfy` | `RateLimiters` | the bucket, as a pure specification (`Bucket`, `Refilled`, `Decide`) and as the class `FixedTokenBucket` whose methods are proved against it |
| `throttled_stream.dfy` | `Throttling` | `ThrottledStream`, whose write loops are proved against `SplitWrite` and `PieceRequests` |
| `content_length_limiting_stream.dfy` | `ContentLength` | `ContentLengthLimitingStream` and its running total |
| `max_request_content_length.dfy` | `RequestContentLength` | the stage, both as a function of the request and the downstream stages and as a method over a mutable exchange |
| `max_concurrent_requests.dfy` | `ConcurrentRequests` | the stage's counter as a class, and interleavings of entries and exits as event sequences |
| `max_query_string_length.dfy` | `QueryStringLength` | the query-string stage, as a function |
| `max_url_length.dfy` | `UrlLength` | the URL stage, as a function |
| `percent_decoding.dfy` | `PercentDecoding` | `%XX` decoding (section 2.1 of RFC 3986), in place of `Uri.UnescapeDataString` |
| `byte_stream.dfy` | `Streams` | the stream the wrappers decorate: the bytes still to be read, the writes issued to it, and the flushes |
| `common.dfy` | `Http` | status codes, `int.MaxValue`, `Option`, bytes, and ASCII trim and upper-case |

The following things become inputs of the calls that use them:
- the clock, as `now` in ticks of 100 ns;
- the capacity and maximum providers, as plain values or `() -> int`;
- the downstream pipeline, as a function from the request body it is handed to how it ends.

A wait is the clock moving forward by the waited time.

## Model

| member | source | states |
|---|---|---|
| `RateLimiters.Fresh` | src/LimitsMiddleware/RateLimiters/FixedTokenBucket.cs:14-17 | A new bucket holds no tokens and no registrations, and its refill is due at tick 0. |
| `RateLimiters.Refilled` | src/LimitsMiddleware/RateLimiters/FixedTokenBucket.cs:75-90 | On or after the refill instant, the tokens become the sampled capacity and the next refill is one second later. Before it, the bucket is unchanged. Either way the next refill then lies in the future, and the registrations are untouched. |
| `RateLimiters.Decide` | src/LimitsMiddleware/RateLimiters/FixedTokenBucket.cs:33-51 | After the refill, the answer is "throttle" exactly when more tokens are asked for than the bucket holds. A granted request has no wait and lowers the tokens by exactly the number asked for. A throttled one leaves the bucket as refilled, and its wait is the time to the next refill multiplied by the registered requests. |
| `RateLimiters.WithinCapacityAlways` | src/LimitsMiddleware/RateLimiters/FixedTokenBucket.cs:33-90 | Under any sequence of consultations whose capacities and requests are not negative, the tokens stay between 0 and the capacity of the last refill. |
| `RateLimiters.OverCapacityIsThrottled` | src/LimitsMiddleware/RateLimiters/FixedTokenBucket.cs:36-48 | When the capacity has not shrunk since the last refill, a request for more than the capacity is throttled even right after a refill, and the tokens are left as they are. |
| `RateLimiters.WaitReachesRefill` | src/LimitsMiddleware/RateLimiters/FixedTokenBucket.cs:40-47 | With at least one registered request, a throttled answer carries a positive wait, and waiting it reaches the refill instant. |
| `RateLimiters.ZeroWaitWithoutRegistrations` | src/LimitsMiddleware/RateLimiters/FixedTokenBucket.cs:40-47 | With no registered request, the answer is still "throttle", but the wait is zero. |
| `RateLimiters.RefillForgetsConsumption` | src/LimitsMiddleware/RateLimiters/FixedTokenBucket.cs:81-87 | A refill forgets every earlier consumption: any two buckets that are due hold the same tokens and the same next refill instant afterwards. |
| `RateLimiters.FirstCallFillsToCapacity` | test/LimitsMiddleware.Tests/RateLimiters/FixedTokenBucketTests.cs:24-32 | Capacity 10: the first request for 2 is granted and leaves 8. |
| `RateLimiters.TwoSmallRequestsLeaveSix` | test/LimitsMiddleware.Tests/RateLimiters/FixedTokenBucketTests.cs:34-45 | Capacity 10: two requests for 2 leave 6. |
| `RateLimiters.LargeRequestsLeaveBucketFull` | test/LimitsMiddleware.Tests/RateLimiters/FixedTokenBucketTests.cs:47-58 | Capacity 10: two requests for 12 are both throttled, and the bucket still holds 10. |
| `RateLimiters.RefillAfterTenSeconds` | test/LimitsMiddleware.Tests/RateLimiters/FixedTokenBucketTests.cs:100-123 | Consuming 2 + 2, waiting ten seconds, then consuming 2 + 2 leaves 6 again. |
| `RateLimiters.FixedTokenBucket.constructor` | src/LimitsMiddleware/RateLimiters/FixedTokenBucket.cs:19-25 | A new bucket's fields are those of `Fresh`: no tokens, no registrations, refill due at tick 0. |
| `RateLimiters.FixedTokenBucket.UpdateTokens` | src/LimitsMiddleware/RateLimiters/FixedTokenBucket.cs:75-90 | The fields become exactly `Refilled` of their old values. |
| `RateLimiters.FixedTokenBucket.ShouldThrottle` | src/LimitsMiddleware/RateLimiters/FixedTokenBucket.cs:33-51 | The answer, the wait and the new fields are exactly those of `Decide` on the old fields. |
| `RateLimiters.FixedTokenBucket.CurrentTokenCount` | src/LimitsMiddleware/RateLimiters/FixedTokenBucket.cs:53-60 | Reading the count runs the refill first: the new fields are `Refilled` of the old ones, and the value is the refilled token count. |
| `RateLimiters.FixedTokenBucket.RegisterRequest` | src/LimitsMiddleware/RateLimiters/FixedTokenBucket.cs:66-68 | The registered requests grow by one. |
| `RateLimiters.FixedTokenBucket.ReleaseRequest` | src/LimitsMiddleware/RateLimiters/FixedTokenBucket.cs:69-72 | Disposing the registration lowers the registered requests by one. |
| `RateLimiters.RegistrationIsRestored` | src/LimitsMiddleware/RateLimiters/FixedTokenBucket.cs:66-73 | Registering and then disposing leaves the whole bucket as it was. |
| `Throttling.SplitWrite` | src/LimitsMiddleware.AspNetCore/ThrottledStream.cs:65-94 | A throttled write always issues at least one inner write. |
| `Throttling.SplitWriteConcat` | src/LimitsMiddleware.AspNetCore/ThrottledStream.cs:65-94 | Put together in order, the inner writes are exactly the bytes asked to be written. |
| `Throttling.SplitWriteChunkSizes` | src/LimitsMiddleware.AspNetCore/ThrottledStream.cs:72-85 | No inner write is longer than the rate, and every inner write but the last is exactly the rate. |
| `Throttling.SplitWriteCount` | src/LimitsMiddleware.AspNetCore/ThrottledStream.cs:72-94 | An empty write issues one empty inner write. A write of `n` bytes issues `k` inner writes with `(k - 1) * rate < n <= k * rate`, and the last of them is not empty. |
| `Throttling.SplitWriteCeiling` | src/LimitsMiddleware.AspNetCore/ThrottledStream.cs:72-94 | A non-empty write issues `ceil(count / rate)` inner writes. |
| `Throttling.PieceRequestsValues` | src/LimitsMiddleware.AspNetCore/ThrottledStream.cs:72-84 | The `j`-th question of the split loop asks the bucket for `count - j * rate` tokens: every byte still to be written, not one piece. |
| `Throttling.PieceRequestsCount` | src/LimitsMiddleware.AspNetCore/ThrottledStream.cs:72-85 | The split loop asks one question per full piece, one fewer than the inner writes. |
| `Throttling.WriteTraceWrites` | src/LimitsMiddleware.AspNetCore/ThrottledStream.cs:72-94 | The inner writes recorded in a write's sequence of events are exactly its pieces, in order. |
| `Throttling.WriteTraceOrder` | src/LimitsMiddleware.AspNetCore/ThrottledStream.cs:72-94 | In a write's sequence of events every inner write comes right after a question to the bucket. The last two events are the last question, for the remainder, and the write of the remainder. |
| `Throttling.RetryAfterWait` | src/LimitsMiddleware.AspNetCore/ThrottledStream.cs:86-92 | After a refused question, with a registered request, the wait reaches the refill, so the next question is refused exactly when the capacity then read is below the remainder. |
| `Throttling.RetryFollowsCapacity` | src/LimitsMiddleware.AspNetCore/ThrottledStream.cs:86-92 | With the capacity read again at every question, as the bucket does at each refill: once the first question is refused, every later one is refused exactly when the capacity then read is below the remainder, and the loop stops at the first that is not. |
| `Throttling.RetryNeverGrantedBelowRemainder` | src/LimitsMiddleware.AspNetCore/ThrottledStream.cs:86-92 | While the capacity provider answers less than the remainder, every question of the retry loop is refused: the loop never ends. |
| `Throttling.RetryRun` | src/LimitsMiddleware.AspNetCore/ThrottledStream.cs:86-92 | The retry loop, with the capacity fixed for the write and a registered request, asks for the remainder once or twice. Every answer but the last is "throttle", the clock never goes back, and the registrations are unchanged. |
| `Throttling.RetryRunGrants` | src/LimitsMiddleware.AspNetCore/ThrottledStream.cs:86-92 | The retry loop ends with a grant. The bucket it leaves is that grant's `Decide`, with the refilled tokens lowered by the remainder. The granting question finds the bucket as the loop found it, or, after one refusal and its wait, the bucket that refusal left, which is then full. |
| `Throttling.WriteRun` | src/LimitsMiddleware.AspNetCore/ThrottledStream.cs:72-92 | The whole throttled write, question by question, from a given bucket and clock: the clock never goes back and the registrations are unchanged. |
| `Throttling.WriteRunWithinCapacity` | src/LimitsMiddleware.AspNetCore/ThrottledStream.cs:72-92 | A whole throttled write keeps the bucket's tokens between 0 and the capacity of the last refill. |
| `Throttling.ChainExtend` | src/LimitsMiddleware.AspNetCore/ThrottledStream.cs:72-85 | One more pass of the split loop, answered as `Decide` says and followed by its wait, extends the chain of questions from the bucket the write found. |
| `Throttling.ChainRun` | src/LimitsMiddleware.AspNetCore/ThrottledStream.cs:72-92 | The questions chained by the split loop are the first questions of `WriteRun` from the bucket the write found. The rest of the write goes on from the bucket and clock they leave. |
| `Throttling.ChainRequested` | src/LimitsMiddleware.AspNetCore/ThrottledStream.cs:72-84 | The questions chained by the split loop ask, in order, for the sizes `PieceRequests` lists, down to what is left. |
| `Throttling.WriteRunEnd` | src/LimitsMiddleware.AspNetCore/ThrottledStream.cs:86-92 | Once at most one rate of bytes is left, the rest of `WriteRun` is the retry loop `RetryRun`. |
| `Throttling.ThrottledStream.constructor` | src/LimitsMiddleware.AspNetCore/ThrottledStream.cs:14-23 | The stream decorates the given inner stream and paces through the given bucket. |
| `Throttling.ThrottledStream.WriteAsync` | src/LimitsMiddleware.AspNetCore/ThrottledStream.cs:56-95 | Several guarantees (listed after this table). |
| `Throttling.ThrottledStream.WriteThrottled` | src/LimitsMiddleware.AspNetCore/ThrottledStream.cs:65-94 | With a positive rate: the inner writes are `SplitWrite` of the bytes, and the events are `WriteTrace` of the questions and the pieces. The bucket is as the grant of the remainder leaves it. The bucket, the clock, the questions and the bucket the granting question found are exactly `WriteRun` from the bucket the write found. |
| `Throttling.ThrottledStream.WritePieces` | src/LimitsMiddleware.AspNetCore/ThrottledStream.cs:72-85 | The split loop writes every piece of `SplitWrite` but the last, whatever the bucket answers. It leaves at most one rate of bytes. Its questions are exactly `PieceRequests(count, rate)`, and each comes right before the piece it precedes. They form a `Chain` from the bucket and clock the loop found to the bucket, clock and byte count it leaves: each answered as `Decide` says and followed by its wait. |
| `Throttling.ThrottledStream.WritePiece` | src/LimitsMiddleware.AspNetCore/ThrottledStream.cs:74-84 | One pass of the split loop: the answer and the bucket left are `Decide` of the bucket found, for every byte still to be written. The clock moves on by the wait when it is positive. One piece of exactly the rate is written whatever the answer. |
| `Throttling.ThrottledStream.AwaitTokens` | src/LimitsMiddleware.AspNetCore/ThrottledStream.cs:86-92 | The retry loop asks for the remainder until it is granted. Every answer but the last is "throttle" and the last is a grant. The bucket is left as that grant's `Decide` leaves it, with its refilled tokens lowered by the remainder. At most two questions are asked: with one, the grant comes from the bucket the loop found, at the start clock; with two, from the bucket the first refusal left. The clock, the answers and the bucket are exactly `RetryRun` of the bucket found. It terminates for a capacity fixed for the whole write, which then covers the remainder, because a wait reaches the refill. |
| `Throttling.ThrottledStream.WriteRemainder` | src/LimitsMiddleware.AspNetCore/ThrottledStream.cs:86-94 | The retry loop, then exactly one inner write of the remainder. The bucket is as the grant leaves it. The bucket, the clock, the answers and the bucket the granting question found are exactly `RetryRun` of the bucket found. |
| `Throttling.ThrottledStream.Write` | src/LimitsMiddleware.AspNetCore/ThrottledStream.cs:104-107 | The synchronous write issues the same inner writes as `WriteAsync`. With a positive rate, it leaves the bucket and the clock as `WriteRun` from the bucket it found. With a rate of 0 or less, the bucket and the clock are untouched. The inner stream's unread bytes and flushes are unchanged. |
| `Throttling.ThrottledStream.Read` | src/LimitsMiddleware.AspNetCore/ThrottledStream.cs:52 | Reads pass through, and the bucket is not consulted. The inner stream's writes and flushes are unchanged. |
| `Throttling.ThrottledStream.ReadAsync` | src/LimitsMiddleware.AspNetCore/ThrottledStream.cs:97 | Asynchronous reads pass through, and the bucket is not consulted. The inner stream's writes and flushes are unchanged. |
| `Throttling.ThrottledStream.Flush` | src/LimitsMiddleware.AspNetCore/ThrottledStream.cs:39-42 | One flush of the inner stream, and nothing else. |
| `ContentLength.Validate` | src/LimitsMiddleware/ContentLengthLimitingStream.cs:128-141 | A total is accepted exactly when it does not pass the maximum. "Content length required" is raised exactly when the total is positive and the maximum is 0. |
| `ContentLength.FailureIsSticky` | src/LimitsMiddleware/ContentLengthLimitingStream.cs:128-141 | Once the total fails, every later read fails again with the same fault. |
| `ContentLength.FirstFaultIsFinalCheck` | src/LimitsMiddleware/ContentLengthLimitingStream.cs:66-73 | Reading a body in pieces fails exactly when the whole body would fail the check, and with the same fault. |
| `ContentLength.ChunkCountsCover` | src/LimitsMiddleware/ContentLengthLimitingStream.cs:66-73 | The reads of a stream up to its end, and the final empty read, return the whole stream between them. |
| `ContentLength.ReadToEndIsWholeCheck` | src/LimitsMiddleware/ContentLengthLimitingStream.cs:66-73 | Read to its end from a total within the maximum, a body fails exactly when its whole length would fail the check, and with that fault. |
| `ContentLength.ReadStep` | src/LimitsMiddleware/ContentLengthLimitingStream.cs:66-73 | One read decides the outcome of reading to the end when it fails, and otherwise leaves the outcome of reading the rest (none once the stream is empty). |
| `ContentLength.ReadNext` | src/LimitsMiddleware/ContentLengthLimitingStream.cs:66-73 | One read through the wrapper: a fault it raises is the outcome of reading to the end. A passing read returns the next bytes of the body, and the outcome is then that of reading what is left. |
| `ContentLength.ReadBodyToEnd` | src/LimitsMiddleware/ContentLengthLimitingStream.cs:66-73 | A consumer that reads through the wrapper until a read fails or returns nothing ends with `FirstFault` of the read counts. From a total within the maximum, that is the check of the whole body. When no read fails, it gets the whole body. |
| `ContentLength.ContentLengthLimitingStream.constructor` | src/LimitsMiddleware/ContentLengthLimitingStream.cs:16-20 | The wrapper decorates the given stream with the given maximum, and its running total starts at 0. |
| `ContentLength.ContentLengthLimitingStream.ValidateRequestSize` | src/LimitsMiddleware/ContentLengthLimitingStream.cs:128-141 | The total grows by the count it is given, and the fault is `Validate` of the new total. |
| `ContentLength.ContentLengthLimitingStream.Read` | src/LimitsMiddleware/ContentLengthLimitingStream.cs:66-73 | The bytes are taken from the inner stream and the total grows by their number, even when the read then fails. The read returns them exactly when the new total passes the check. It keeps the total equal to the bytes read. |
| `ContentLength.ContentLengthLimitingStream.ReadAsync` | src/LimitsMiddleware/ContentLengthLimitingStream.cs:75-82 | The same as `Read`. |
| `ContentLength.ContentLengthLimitingStream.ReadByte` | src/LimitsMiddleware/ContentLengthLimitingStream.cs:84-91 | As written: the total grows by the value read (the byte, or -1 at the end) rather than by one. |
| `ContentLength.ContentLengthLimitingStream.ReadByteCounted` | src/LimitsMiddleware/ContentLengthLimitingStream.cs:84-91 | Corrected: a byte counts as one and the end of the stream as none, so the total stays the number of bytes read. |
| `ContentLength.ContentLengthLimitingStream.Write` | src/LimitsMiddleware/ContentLengthLimitingStream.cs:113-116 | Passes the write to the inner stream; the total is untouched. |
| `ContentLength.ContentLengthLimitingStream.WriteAsync` | src/LimitsMiddleware/ContentLengthLimitingStream.cs:118-121 | Passes the write to the inner stream; the total is untouched. |
| `ContentLength.ContentLengthLimitingStream.WriteByte` | src/LimitsMiddleware/ContentLengthLimitingStream.cs:123-126 | Passes the one-byte write to the inner stream; the total is untouched. |
| `ContentLength.ContentLengthLimitingStream.Flush` | src/LimitsMiddleware/ContentLengthLimitingStream.cs:93-96 | One flush of the inner stream, and nothing else. |
| `ContentLength.ContentLengthLimitingStream.FlushAsync` | src/LimitsMiddleware/ContentLengthLimitingStream.cs:103-106 | One flush of the inner stream, and nothing else. |
| `ContentLength.ContentLengthLimitingStream.CopyToAsync` | src/LimitsMiddleware/ContentLengthLimitingStream.cs:98-101 | The rest of the body goes to the destination through the inner stream, and the total does not see it. Nothing is written to or flushed on the inner stream. |
| `ContentLength.ReadByteOneByteBody` | src/LimitsMiddleware/ContentLengthLimitingStream.cs:84-91 | As written: the one-byte body "A" under a maximum of 10 fails with "content length exceeded". |
| `ContentLength.ReadByteZeroBytesPass` | src/LimitsMiddleware/ContentLengthLimitingStream.cs:84-91 | As written: twelve zero bytes are all read under a maximum of 10. |
| `ContentLength.ReadByteCountedOneByteBody` | src/LimitsMiddleware/ContentLengthLimitingStream.cs:84-91 | Corrected: the one-byte body "A" under a maximum of 10 is read. |
| `Http.ToUpperInvariant` | src/LimitsMiddleware/Limits.MaxRequestContentLength.cs:63 | Every ASCII lower-case letter is upper-cased, every other character is kept, and the length is kept. |
| `Http.TrimStart` | src/LimitsMiddleware/Limits.MaxRequestContentLength.cs:63 | Drops exactly the leading white space: the result is a suffix, it does not start with white space, and everything dropped is white space. |
| `Http.TrimEnd` | src/LimitsMiddleware/Limits.MaxRequestContentLength.cs:63 | Drops exactly the trailing white space, in the same way as `TrimStart`. |
| `RequestContentLength.NormalizedMethodShape` | src/LimitsMiddleware/Limits.MaxRequestContentLength.cs:63 | The compared method has no white space at its ends and no lower-case letter. |
| `RequestContentLength.MethodIsNormalized` | src/LimitsMiddleware/Limits.MaxRequestContentLength.cs:63 | `" post "` is compared as `"POST"`. |
| `RequestContentLength.ChunkedHeaderIsExact` | src/LimitsMiddleware/Limits.MaxRequestContentLength.cs:125-129 | Only a header of exactly seven characters can make a request chunked. |
| `RequestContentLength.ChunkedHeaderExamples` | src/LimitsMiddleware/Limits.MaxRequestContentLength.cs:125-129 | "chunked" in any case counts; "gzip, chunked" and a missing header do not. |
| `RequestContentLength.Forward` | src/LimitsMiddleware/Limits.MaxRequestContentLength.cs:106-121 | One downstream call. Its "required" fault becomes 411 and its "exceeded" fault 413, each in both directions. Any other failure leaves the stage. |
| `RequestContentLength.CheckAndForward` | src/LimitsMiddleware/Limits.MaxRequestContentLength.cs:70-121 | The checks call downstream at most once, always with the body limited to the maximum or to 0. When they do not call it, nothing escapes and the request is not chunked. |
| `RequestContentLength.MaxRequestContentLength` | src/LimitsMiddleware/Limits.MaxRequestContentLength.cs:62-121 | As written: downstream is called at most twice. Only HEAD ever sees the raw body, and HEAD always sees it first. |
| `RequestContentLength.MaxRequestContentLengthFixed` | src/LimitsMiddleware/Limits.MaxRequestContentLength.cs:65-69 | Corrected: HEAD is forwarded once with its raw body and nothing else happens; every request calls downstream at most once. |
| `RequestContentLength.FixedAgreesOffHead` | src/LimitsMiddleware/Limits.MaxRequestContentLength.cs:62-121 | Off HEAD, the corrected stage is the stage as written. |
| `RequestContentLength.HeadIsForwardedTwice` | src/LimitsMiddleware/Limits.MaxRequestContentLength.cs:65-83 | As written: a HEAD without Content-Length reaches downstream twice, raw and then limited to 0. |
| `RequestContentLength.HeadTooLargeAnsweredAfterDownstream` | src/LimitsMiddleware/Limits.MaxRequestContentLength.cs:65-92 | As written: a HEAD declaring too much is served downstream and then answered 413. |
| `RequestContentLength.LengthRequiredForPutAndPost` | src/LimitsMiddleware/Limits.MaxRequestContentLength.cs:76-82 | A PUT or POST that is not chunked and has no usable Content-Length gets 411, and downstream is not called. |
| `RequestContentLength.OtherMethodsLimitedToNothing` | src/LimitsMiddleware/Limits.MaxRequestContentLength.cs:76-83 | Any other method without Content-Length is forwarded with its body limited to 0. |
| `RequestContentLength.DeclaredLengthTooLarge` | src/LimitsMiddleware/Limits.MaxRequestContentLength.cs:87-92 | A declared length above the maximum gets 413, and downstream is not called. |
| `RequestContentLength.DeclaredLengthAccepted` | src/LimitsMiddleware/Limits.MaxRequestContentLength.cs:93-95 | A declared length at most the maximum is forwarded with the body limited to the maximum. |
| `RequestContentLength.ChunkedSkipsHeaderCheck` | src/LimitsMiddleware/Limits.MaxRequestContentLength.cs:99-104 | A chunked request is forwarded with the body limited to the maximum, whatever it declares. |
| `RequestContentLength.ReadToEndOutcome` | src/LimitsMiddleware/ContentLengthLimitingStream.cs:66-73 | A downstream stage that reads a limited body to its end fails exactly when the body passes the limit, and with that fault. |
| `RequestContentLength.ServedBodiesStayWithinLimit` | src/LimitsMiddleware/Limits.MaxRequestContentLength.cs:70-121 | With a maximum that is not negative, when bodies are read to their end, a request (other than HEAD) that reaches downstream and gets no status has a body of at most the maximum. |
| `RequestContentLength.ChunkedOversizeRejected` | test/LimitsMiddleware.Tests/MaxRequestContentLengthTests.cs:134-146 | A chunked body longer than the maximum is answered 413 (411 under a maximum of 0) once it is read. |
| `RequestContentLength.DeclaredBodyWithinLimitServed` | test/LimitsMiddleware.Tests/MaxRequestContentLengthTests.cs:70-79 | A PUT declaring its true length, at most the maximum, is served. |
| `RequestContentLength.Invoke` | src/LimitsMiddleware/Limits.MaxRequestContentLength.cs:62-121 | The request body and the status the exchange ends with, and whether an exception escapes, are those of `MaxRequestContentLength`. |
| `RequestContentLength.CheckAndInvoke` | src/LimitsMiddleware/Limits.MaxRequestContentLength.cs:70-121 | The same, for the checks after the HEAD shortcut, against `CheckAndForward`. |
| `ConcurrentRequests.EffectiveCeiling` | src/LimitsMiddleware/Limits.MaxConcurrentRequests.cs:76-80 | A ceiling of 0 or less means `int.MaxValue`; a positive one is kept. |
| `ConcurrentRequests.Initial` | src/LimitsMiddleware/Limits.MaxConcurrentRequests.cs:69 | The counter starts at 0 with nothing in flight. |
| `ConcurrentRequests.StepConsistent` | src/LimitsMiddleware/Limits.MaxConcurrentRequests.cs:81-98 | Every entry and exit keeps the counter equal to the requests in flight, and the admitted requests among them. |
| `ConcurrentRequests.AdmittedWithinCeiling` | src/LimitsMiddleware/Limits.MaxConcurrentRequests.cs:83-92 | Under any interleaving of entries and exits of distinct requests (no id enters while it is in flight), checked against one ceiling, the admitted requests in flight never exceed it. |
| `ConcurrentRequests.EnterThenExitRestores` | src/LimitsMiddleware/Limits.MaxConcurrentRequests.cs:81-98 | A request that enters and leaves restores the counter and both multisets. |
| `ConcurrentRequests.UnlimitedAdmitsAll` | src/LimitsMiddleware/Limits.MaxConcurrentRequests.cs:76-85 | With no ceiling, no request is rejected while fewer than `int.MaxValue` are in flight. |
| `ConcurrentRequests.TwoOverlappingRequests` | test/LimitsMiddleware.Tests/MaxConcurrentRequestsTests.cs:17-57 | With ceiling 1 the second of two overlapping requests is rejected; with 2 or 0 it is not. |
| `ConcurrentRequests.ConcurrencyGate.constructor` | src/LimitsMiddleware/Limits.MaxConcurrentRequests.cs:69 | The counter starts at 0 with nothing in flight, as `Initial`. |
| `ConcurrentRequests.ConcurrencyGate.Enter` | src/LimitsMiddleware/Limits.MaxConcurrentRequests.cs:76-91 | Increments the counter, rejects exactly when the new value is above the ceiling, and keeps the gate consistent. |
| `ConcurrentRequests.ConcurrencyGate.Exit` | src/LimitsMiddleware/Limits.MaxConcurrentRequests.cs:94-98 | Decrements the counter and keeps the gate consistent. |
| `ConcurrentRequests.ConcurrencyGate.Handle` | src/LimitsMiddleware/Limits.MaxConcurrentRequests.cs:73-98 | One request leaves the gate as it found it. Its status is 503 exactly when the incremented counter is above the ceiling, and otherwise the downstream status. |
| `ConcurrentRequests.OverlappingRequests` | test/LimitsMiddleware.Tests/MaxConcurrentRequestsTests.cs:17-57 | Of two overlapping requests the first gets 200, and the second gets 503 exactly when the ceiling is 1 (200 otherwise). |
| `PercentDecoding.Unescape` | src/LimitsMiddleware/Limits.MaxQueryStringLength.cs:59 | Decoding never lengthens the text. |
| `PercentDecoding.UnescapeWithoutPercent` | src/LimitsMiddleware/Limits.MaxQueryStringLength.cs:59 | Text without `%` decodes to itself. |
| `PercentDecoding.UnescapedLength` | src/LimitsMiddleware/Limits.MaxQueryStringLength.cs:59 | Every valid escape shortens the text by two. |
| `PercentDecoding.UnescapeEscape` | src/LimitsMiddleware/Limits.MaxQueryStringLength.cs:59 | Decoding undoes `%XX` escaping of every character below 256. |
| `PercentDecoding.PrefixThenEscapes` | src/LimitsMiddleware/Limits.MaxQueryStringLength.cs:59 | Text without `%` followed by escapes decodes to the text followed by the escaped characters. |
| `PercentDecoding.SevenEscapes` | test/LimitsMiddleware.AspNetCore.Tests/MaxQueryStringTests.cs:40 | `%48%49%50%51%52%53%54`, the escaped text of the tests, is the escaped form of "HIPQRST". |
| `QueryStringLength.MaxQueryStringLength` | src/LimitsMiddleware/Limits.MaxQueryStringLength.cs:55-72 | A rejection is always 414. |
| `QueryStringLength.NoQueryStringIsForwarded` | src/LimitsMiddleware/Limits.MaxQueryStringLength.cs:56-72 | Without a query string the request is forwarded, whatever the maximum. |
| `QueryStringLength.RejectedIffDecodedTooLong` | src/LimitsMiddleware/Limits.MaxQueryStringLength.cs:58-72 | A query string is rejected with 414 exactly when its decoded length is above the maximum, and forwarded exactly when it is not (equal passes). |
| `QueryStringLength.EscapesMeasuredDecoded` | src/LimitsMiddleware/Limits.MaxQueryStringLength.cs:59-61 | A query string with escapes is measured decoded: it is served under its decoded length, though its escaped form is longer. |
| `QueryStringLength.PlainQueryScenarios` | test/LimitsMiddleware.AspNetCore.Tests/MaxQueryStringTests.cs:15-53 | Under 10, "?q=1234567" is served and "?q=123456789" is rejected; under 5, "?q=123456" is rejected. |
| `QueryStringLength.EscapedQueryScenario` | test/LimitsMiddleware.AspNetCore.Tests/MaxQueryStringTests.cs:35-43 | Under 10, the 24-character escaped query "?q=%48%49%50%51%52%53%54" is served. |
| `UrlLength.MaxUrlLength` | src/LimitsMiddleware/Limits.MaxUrlLength.cs:33-43 | The only status ever set is 414. |
| `UrlLength.RejectedIffDecodedTooLong` | src/LimitsMiddleware/Limits.MaxUrlLength.cs:33-43 | 414 is set exactly when the decoded URI is longer than the maximum (equal passes), and downstream is called in every case. |
| `UrlLength.EscapesMeasuredDecoded` | src/LimitsMiddleware/Limits.MaxUrlLength.cs:34-37 | A URI with escapes is measured decoded. |
| `UrlLength.PlainUrlScenarios` | test/LimitsMiddleware.Tests/MaxUrlLengthTests.cs:15-31 | Under 20, "http://example.com/" passes and the 39-character URL gets 414. |
| `UrlLength.EscapedUrlScenario` | test/LimitsMiddleware.Tests/MaxUrlLengthTests.cs:33-40 | Under 30, the escaped URL passes, 43 characters long and 29 once decoded. |

`Throttling.ThrottledStream.WriteAsync` guarantees:
- With a rate of 0 or less, one inner write of all the bytes, and the bucket is untouched.
- Otherwise the inner writes are exactly `SplitWrite` of the bytes.
- The questions asked before the full pieces are `PieceRequests`.
- The events, questions and inner writes in order, are `WriteTrace` of the questions and the pieces. Every inner write comes right after a question.
- The remainder is asked for until it is granted. The last two events are the granting question and the write of the remainder.
- The bucket is left as the granting question's `Decide` leaves it: its refilled tokens lowered by the remainder.
- The bucket, the clock, the questions and the bucket the granting question found are exactly those of `WriteRun` from the bucket the write found, question by question.
- The registrations are restored.

The URL test counts its escaped URL as 42 characters and 28 decoded. The absolute URI the stage measures has the "/" that the URI class adds after the host, so it is 43 characters and 29 decoded.

## Left out

- Throttling.ThrottledStream.WriteAsync: requires at least one registered request when the rate is positive. Without one, a throttled retry waits zero ticks, and in the model the retry loop need not end. In the source the clock moves on, so a zero wait busy-spins until the refill instant. The bandwidth stages always register before wrapping a stream.
- Throttling.ThrottledStream.WriteAsync: the rate is one capacity value for the whole write. Termination is proved only for that case, where every refill installs a capacity that covers the remainder. The bucket reads its capacity provider again at every refill (src/LimitsMiddleware/RateLimiters/FixedTokenBucket.cs:85). `Throttling.RetryFollowsCapacity` and `Throttling.RetryNeverGrantedBelowRemainder` model the retry loop with a capacity per question: it never ends while the provider answers less than the remainder. `Rate` is `Capacity / 1.0` converted back to an integer, so no floating point is modelled.
- RateLimiters.Decide: the `waitTicks <= 0` branch is modelled, but it cannot be taken. The model reads the clock once per call, and a refill always moves the next refill instant past `now`.
- Concurrency:
  - interleavings inside one call;
  - the `Interlocked` operations;
  - the compare-and-swap guard around the refill, which is taken to be always acquired.

  The concurrent-requests stage models interleavings of whole entries and exits.
- Integer widths:
  - the 64-bit token count, wait and byte total;
  - the 32-bit counter, whose overflow needs more than `int.MaxValue` requests in flight.

  Integers are unbounded.
- Inner-stream reads:
  - A read returns as many bytes as were asked for or as remain, whichever is fewer.
  - A real stream may return fewer.
  - Buffers and offsets of reads are not modelled; a read returns its bytes.
- The pass-through members of both streams:
  - `Seek`, `SetLength`, `Position`, `Length`, `CanRead`, `CanSeek`, `CanWrite`, the timeouts, `Dispose` and `ToString`.
- Cancellation tokens, logging, the `RequestContext` wrapper and `SystemClock`.
- Request parsing:
  - The Content-Length header is an optional natural number, where `None` also covers an unparsable header.
  - The query string and the absolute URI are given as text.
  - `GetEncodedUrl` and `Uri` normalisation are not modelled.
- PercentDecoding.Unescape:
  - decodes each `%XX` to the character with that code;
  - does not decode multi-byte UTF-8 sequences into one character;
  - decodes every `%XX`, whereas `Uri.UnescapeDataString` leaves escapes from `%80` to `%FF` that do not form a valid UTF-8 sequence as they are.
- Http.TrimStart and `Http.TrimEnd` know the ASCII white space only. `Http.ToUpperInvariant` upper-cases ASCII letters only.
- ContentLength.ContentLengthLimitingStream.CopyToAsync models the copy as one write of the rest of the body, without a buffer size.
- The stages not listed above: the connection timeout and `TimeoutStream`, the minimum response delay, the bandwidth stages and the `ApplicationBuilderExtensions` files.

## Findings

| source | as written | input that shows it | evidently intended | confidence | as-written member | corrected member |
|---|---|---|---|---|---|---|
| src/LimitsMiddleware/ContentLengthLimitingStream.cs:84-91 | `ReadByte` adds the value it read (0 to 255, or -1 at the end of the body) to the byte total | A one-byte body "A" read with `ReadByte` under a maximum of 10 fails as exceeded, because it counts as 65. Twelve zero bytes all pass the same maximum. | one read byte counts as one, and the end of the body as none | not executed | `ContentLength.ReadByteOneByteBody` | `ContentLength.ReadByteCountedOneByteBody` |
| src/LimitsMiddleware/Limits.MaxRequestContentLength.cs:65-69 | a HEAD request is handed downstream, and with no `return` the checks then run and may call downstream again | A HEAD without Content-Length whose downstream completes is forwarded twice: raw, then limited to 0. A HEAD declaring too much is answered 413 after being served. | a HEAD is forwarded once, unchecked, and the stage returns | not executed | `RequestContentLength.HeadIsForwardedTwice` | `RequestContentLength.MaxRequestContentLengthFixed` |
