/** The rate-limited stream: writes are cut into pieces of at most one
    second's worth of bytes and each piece is paced by a token bucket; reads
    pass through untouched. Waiting is modelled as the clock moving forward by
    the waited time; everything else takes no time. */
module Throttling {
  import opened Http
  import opened Streams
  import opened RateLimiters

  /** The inner writes one throttled write of `data` issues when the rate is
      `rate` bytes per second: full pieces of `rate` bytes while more than
      `rate` bytes remain, then the remainder in one write. */
  function SplitWrite(data: seq<byte>, rate: int): (chunks: seq<seq<byte>>)
    requires rate > 0
    ensures |chunks| >= 1
    decreases |data|
  {
    if |data| > rate then [data[..rate]] + SplitWrite(data[rate..], rate) else [data]
  }

  function Concat(chunks: seq<seq<byte>>): seq<byte>
    decreases |chunks|
  {
    if chunks == [] then [] else chunks[0] + Concat(chunks[1..])
  }

  /** The inner writes, put together, are exactly the bytes asked to be written. */
  lemma {:induction false} SplitWriteConcat(data: seq<byte>, rate: int)
    requires rate > 0
    ensures Concat(SplitWrite(data, rate)) == data
    decreases |data|
  {
    if |data| > rate {
      SplitWriteConcat(data[rate..], rate);
      assert SplitWrite(data, rate)[1..] == SplitWrite(data[rate..], rate);
      assert data == data[..rate] + data[rate..];
    }
  }

  /** No inner write is longer than the rate, and every one but the last is
      exactly the rate. */
  lemma {:induction false} SplitWriteChunkSizes(data: seq<byte>, rate: int)
    requires rate > 0
    ensures forall i :: 0 <= i < |SplitWrite(data, rate)| ==>
      |SplitWrite(data, rate)[i]| <= rate &&
      (i < |SplitWrite(data, rate)| - 1 ==> |SplitWrite(data, rate)[i]| == rate)
    decreases |data|
  {
    if |data| > rate {
      SplitWriteChunkSizes(data[rate..], rate);
      var chunks := SplitWrite(data, rate);
      var rest := SplitWrite(data[rate..], rate);
      assert chunks == [data[..rate]] + rest;
      forall i | 0 <= i < |chunks|
        ensures |chunks[i]| <= rate && (i < |chunks| - 1 ==> |chunks[i]| == rate)
      {
        if i > 0 {
          assert chunks[i] == rest[i - 1];
          assert |rest[i - 1]| <= rate && (i - 1 < |rest| - 1 ==> |rest[i - 1]| == rate);
        } else {
          assert chunks[0] == data[..rate];
        }
      }
    }
  }

  /** The number of inner writes: one for an empty write, otherwise the number
      `k` with `(k - 1) * rate < |data| <= k * rate`, that is ceil(|data| / rate),
      and the last write is never empty. */
  lemma {:induction false} SplitWriteCount(data: seq<byte>, rate: int)
    requires rate > 0
    ensures var k := |SplitWrite(data, rate)|;
      (|data| == 0 ==> k == 1) &&
      (|data| > 0 ==> (k - 1) * rate < |data| <= k * rate && 1 <= |SplitWrite(data, rate)[k - 1]|)
    decreases |data|
  {
    if |data| > rate {
      SplitWriteCount(data[rate..], rate);
      var k' := |SplitWrite(data[rate..], rate)|;
      assert |SplitWrite(data, rate)| == k' + 1;
      assert (k' + 1) * rate == k' * rate + rate;
      assert SplitWrite(data, rate)[k'] == SplitWrite(data[rate..], rate)[k' - 1];
    }
  }

  lemma FactorOrder(a: int, b: int, r: int)
    requires r > 0 && a * r < b * r
    ensures a < b
  {
    assert (b - a) * r == b * r - a * r;
    if a >= b {
      assert false;
    }
  }

  /** `ceil(n / rate)` in the closed form of the division operator. */
  lemma CeilingDivision(n: int, rate: int, k: int)
    requires rate > 0 && n > 0
    requires (k - 1) * rate < n <= k * rate
    ensures (n + rate - 1) / rate == k
  {
    var q := (n + rate - 1) / rate;
    var m := (n + rate - 1) % rate;
    assert q * rate + m == n + rate - 1 && 0 <= m < rate;
    assert (k - 1) * rate == k * rate - rate;
    assert (q + 1) * rate == q * rate + rate;
    FactorOrder(k - 1, q, rate);
    FactorOrder(q, k + 1, rate);
  }

  /** The number of inner writes of a non-empty write is ceil(count / rate). */
  lemma SplitWriteCeiling(data: seq<byte>, rate: int)
    requires rate > 0 && |data| > 0
    ensures |SplitWrite(data, rate)| == (|data| + rate - 1) / rate
  {
    SplitWriteCount(data, rate);
    CeilingDivision(|data|, rate, |SplitWrite(data, rate)|);
  }

  /** One consultation of the bucket during a write: how many tokens were
      asked for and whether the answer was "throttle". */
  datatype Ask = Ask(requested: int, throttled: bool)

  function Requested(asks: seq<Ask>): (r: seq<int>)
    ensures |r| == |asks| && forall j :: 0 <= j < |asks| ==> r[j] == asks[j].requested
  {
    seq(|asks|, j requires 0 <= j < |asks| => asks[j].requested)
  }

  /** The questions the split loop asks when `n` bytes are to be written: before
      each full piece, all the bytes still to be written. */
  function PieceRequests(n: int, rate: int): seq<int>
    requires rate > 0
    decreases n
  {
    if n > rate then [n] + PieceRequests(n - rate, rate) else []
  }

  /** Asking one question moves it from the pending questions to the asked ones. */
  lemma RequestsAdvance(done: seq<int>, n: int, rate: int)
    requires rate > 0 && n > rate
    ensures done + [n] + PieceRequests(n - rate, rate) == done + PieceRequests(n, rate)
  {
  }

  /** The `j`-th question asks for `n - j * rate` bytes. */
  lemma {:induction false} PieceRequestsValues(n: int, rate: int)
    requires rate > 0
    ensures forall j :: 0 <= j < |PieceRequests(n, rate)| ==> PieceRequests(n, rate)[j] == n - j * rate
    decreases n
  {
    if n > rate {
      PieceRequestsValues(n - rate, rate);
      var r := PieceRequests(n, rate);
      var rest := PieceRequests(n - rate, rate);
      forall j | 0 <= j < |r| ensures r[j] == n - j * rate {
        if j > 0 {
          assert r[j] == rest[j - 1] == n - rate - (j - 1) * rate;
          assert (j - 1) * rate == j * rate - rate;
        }
      }
    }
  }

  /** What the split loop has done once `rest` is still to be written: the
      questions asked, the pieces written and the events so far. */
  ghost predicate SplitProgress(whole: seq<byte>, rest: seq<byte>, asks: seq<Ask>, pieces: seq<seq<byte>>,
                                trace: seq<Event>, rate: int)
  {
    rate > 0 && |asks| == |pieces| && trace == Interleaved(asks, pieces) &&
    pieces + SplitWrite(rest, rate) == SplitWrite(whole, rate)
  }

  /** One pass of the split loop moves a question and a full piece from what
      is still to come to what is done, and adds both to the trace. */
  lemma PieceStep(whole: seq<byte>, rest: seq<byte>, asks: seq<Ask>, pieces: seq<seq<byte>>,
                  trace: seq<Event>, rate: int, throttled: bool,
                  rest': seq<byte>, asks': seq<Ask>, pieces': seq<seq<byte>>, trace': seq<Event>)
    requires SplitProgress(whole, rest, asks, pieces, trace, rate) && |rest| > rate
    requires var a := Ask(|rest|, throttled);
      rest' == rest[rate..] && asks' == asks + [a] && pieces' == pieces + [rest[..rate]] &&
      trace' == trace + [Asked(a), Wrote(rest[..rate])]
    ensures SplitProgress(whole, rest', asks', pieces', trace', rate)
  {
    var a := Ask(|rest|, throttled);
    SplitAdvance(whole, rest, pieces, rate);
    InterleavedAppend(asks, pieces, a, rest[..rate]);
  }

  lemma SplitAdvance(whole: seq<byte>, rest: seq<byte>, pieces: seq<seq<byte>>, rate: int)
    requires rate > 0 && |rest| > rate
    requires pieces + SplitWrite(rest, rate) == SplitWrite(whole, rate)
    ensures (pieces + [rest[..rate]]) + SplitWrite(rest[rate..], rate) == SplitWrite(whole, rate)
  {
    var piece, after := rest[..rate], SplitWrite(rest[rate..], rate);
    assert SplitWrite(rest, rate) == [piece] + after;
    assert (pieces + [piece]) + after == pieces + ([piece] + after);
  }

  /** One question per full piece: one fewer than the inner writes. */
  lemma {:induction false} PieceRequestsCount(data: seq<byte>, rate: int)
    requires rate > 0
    ensures |PieceRequests(|data|, rate)| == |SplitWrite(data, rate)| - 1
    decreases |data|
  {
    if |data| > rate {
      PieceRequestsCount(data[rate..], rate);
    }
  }

  /** What happens during one throttled write, in order: a consultation of
      the bucket, or a write issued to the inner stream. */
  datatype Event = Asked(ask: Ask) | Wrote(chunk: seq<byte>)

  /** The events of the split loop: each question is followed by the write of
      one full piece. */
  function Interleaved(asks: seq<Ask>, pieces: seq<seq<byte>>): (trace: seq<Event>)
    requires |asks| == |pieces|
    ensures |trace| == 2 * |asks|
    decreases |asks|
  {
    if asks == [] then [] else [Asked(asks[0]), Wrote(pieces[0])] + Interleaved(asks[1..], pieces[1..])
  }

  lemma {:induction false} InterleavedAppend(asks: seq<Ask>, pieces: seq<seq<byte>>, a: Ask, p: seq<byte>)
    requires |asks| == |pieces|
    ensures Interleaved(asks + [a], pieces + [p]) == Interleaved(asks, pieces) + [Asked(a), Wrote(p)]
    decreases |asks|
  {
    if asks == [] {
      assert asks + [a] == [a] && pieces + [p] == [p];
      assert Interleaved([a], [p]) == [Asked(a), Wrote(p)] + Interleaved([], []);
    } else {
      assert (asks + [a])[1..] == asks[1..] + [a];
      assert (pieces + [p])[1..] == pieces[1..] + [p];
      InterleavedAppend(asks[1..], pieces[1..], a, p);
    }
  }

  function AskEvents(asks: seq<Ask>): (trace: seq<Event>)
    ensures |trace| == |asks| && forall j :: 0 <= j < |asks| ==> trace[j] == Asked(asks[j])
  {
    seq(|asks|, j requires 0 <= j < |asks| => Asked(asks[j]))
  }

  /** The writes of a trace, in order. */
  function Writes(trace: seq<Event>): seq<seq<byte>>
    decreases |trace|
  {
    if trace == [] then []
    else (if trace[0].Wrote? then [trace[0].chunk] else []) + Writes(trace[1..])
  }

  lemma {:induction false} WritesAppend(a: seq<Event>, b: seq<Event>)
    ensures Writes(a + b) == Writes(a) + Writes(b)
    decreases |a|
  {
    if a == [] {
      assert a + b == b;
    } else {
      assert (a + b)[1..] == a[1..] + b;
      WritesAppend(a[1..], b);
    }
  }

  lemma {:induction false} WritesOfInterleaved(asks: seq<Ask>, pieces: seq<seq<byte>>)
    requires |asks| == |pieces|
    ensures Writes(Interleaved(asks, pieces)) == pieces
    decreases |asks|
  {
    if asks != [] {
      var rest := Interleaved(asks[1..], pieces[1..]);
      WritesOfInterleaved(asks[1..], pieces[1..]);
      WritesAppend([Asked(asks[0]), Wrote(pieces[0])], rest);
      assert Writes([Wrote(pieces[0])]) == [pieces[0]] + Writes([]);
      assert [pieces[0]] + pieces[1..] == pieces;
    }
  }

  lemma {:induction false} WritesOfAskEvents(asks: seq<Ask>)
    ensures Writes(AskEvents(asks)) == []
    decreases |asks|
  {
    if asks != [] {
      assert AskEvents(asks)[1..] == AskEvents(asks[1..]);
      WritesOfAskEvents(asks[1..]);
    }
  }

  /** Every write issued comes right after a consultation of the bucket. */
  predicate EachWriteFollowsAsk(trace: seq<Event>) {
    forall i :: 0 <= i < |trace| && trace[i].Wrote? ==> 0 < i && trace[i - 1].Asked?
  }

  lemma {:induction false} InterleavedWritesFollowAsks(asks: seq<Ask>, pieces: seq<seq<byte>>)
    requires |asks| == |pieces|
    ensures EachWriteFollowsAsk(Interleaved(asks, pieces))
    ensures forall j :: 0 <= j < |asks| ==> Interleaved(asks, pieces)[2 * j] == Asked(asks[j])
    decreases |asks|
  {
    if asks != [] {
      var t := Interleaved(asks, pieces);
      var rest := Interleaved(asks[1..], pieces[1..]);
      InterleavedWritesFollowAsks(asks[1..], pieces[1..]);
      forall i | 2 <= i < |t| ensures t[i] == rest[i - 2] {
      }
      forall j | 1 <= j < |asks| ensures t[2 * j] == Asked(asks[j]) {
        assert t[2 * j] == rest[2 * (j - 1)];
      }
    }
  }

  /** The events of a whole throttled write whose rate is positive: the split
      loop's questions and full pieces in turn, then the questions for the
      remainder, then the remainder. */
  function WriteTrace(asks: seq<Ask>, chunks: seq<seq<byte>>): seq<Event>
    requires 1 <= |chunks| <= |asks|
  {
    var k := |chunks| - 1;
    Interleaved(asks[..k], chunks[..k]) + AskEvents(asks[k..]) + [Wrote(chunks[k])]
  }

  /** The writes of such a trace are the chunks, in order. */
  lemma WriteTraceWrites(asks: seq<Ask>, chunks: seq<seq<byte>>)
    requires 1 <= |chunks| <= |asks|
    ensures Writes(WriteTrace(asks, chunks)) == chunks
  {
    var k := |chunks| - 1;
    var split := Interleaved(asks[..k], chunks[..k]);
    var tail := AskEvents(asks[k..]);
    WritesAppend(split + tail, [Wrote(chunks[k])]);
    WritesAppend(split, tail);
    WritesOfInterleaved(asks[..k], chunks[..k]);
    WritesOfAskEvents(asks[k..]);
    assert Writes([Wrote(chunks[k])]) == [chunks[k]] + Writes([]);
    assert chunks[..k] + [chunks[k]] == chunks;
  }

  /** In such a trace every write comes right after a question, and the last
      write right after the last question. */
  lemma WriteTraceOrder(asks: seq<Ask>, chunks: seq<seq<byte>>)
    requires 1 <= |chunks| <= |asks|
    ensures var t := WriteTrace(asks, chunks);
      EachWriteFollowsAsk(t) &&
      |t| >= 2 && t[|t| - 2] == Asked(asks[|asks| - 1]) && t[|t| - 1] == Wrote(chunks[|chunks| - 1])
  {
    var k := |chunks| - 1;
    var split := Interleaved(asks[..k], chunks[..k]);
    var tail := AskEvents(asks[k..]);
    var t := WriteTrace(asks, chunks);
    InterleavedWritesFollowAsks(asks[..k], chunks[..k]);
    assert forall i :: |split| <= i < |split| + |tail| ==> t[i] == tail[i - |split|];
    forall i | 0 <= i < |t| && t[i].Wrote? ensures 0 < i && t[i - 1].Asked? {
      if i < |split| {
        assert t[i] == split[i];
      } else if i == |t| - 1 {
        assert t[i - 1] == tail[|tail| - 1];
      }
    }
    assert t[|t| - 2] == tail[|tail| - 1];
  }

  /** The split loop's pieces, questions and events, followed by the retry
      loop's questions and the write of the remainder, make up the whole
      write: its inner writes, its questions and its trace. */
  lemma ComposeWrite(written: seq<seq<byte>>, pieces: seq<seq<byte>>, last: seq<byte>, chunks: seq<seq<byte>>,
                     splitAsks: seq<Ask>, finalAsks: seq<Ask>, count: int, rate: int)
    requires rate > 0 && pieces + [last] == chunks && |splitAsks| == |pieces|
    requires Requested(splitAsks) == PieceRequests(count, rate)
    requires |finalAsks| >= 1 && forall j :: 0 <= j < |finalAsks| ==>
      finalAsks[j].requested == |last| && (finalAsks[j].throttled <==> j < |finalAsks| - 1)
    ensures (written + pieces) + [last] == written + chunks && chunks[|chunks| - 1] == last
    ensures var asks := splitAsks + finalAsks;
      |chunks| <= |asks| &&
      WriteTrace(asks, chunks) == Interleaved(splitAsks, pieces) + AskEvents(finalAsks) + [Wrote(last)] &&
      Requested(asks[..|chunks| - 1]) == PieceRequests(count, rate) &&
      (forall j :: |chunks| - 1 <= j < |asks| ==>
        asks[j].requested == |chunks[|chunks| - 1]| && (asks[j].throttled <==> j < |asks| - 1))
  {
    var asks := splitAsks + finalAsks;
    assert chunks[..|chunks| - 1] == pieces;
    assert asks[..|chunks| - 1] == splitAsks && asks[|chunks| - 1..] == finalAsks;
    forall j | |chunks| - 1 <= j < |asks|
      ensures asks[j].requested == |chunks[|chunks| - 1]| && (asks[j].throttled <==> j < |asks| - 1)
    {
      assert asks[j] == finalAsks[j - |splitAsks|];
    }
  }

  /** The answers of the retry loop when the capacity provider answers
      `capacities[i]` at the `i`-th consultation: ask for `n` tokens and, while
      the answer is "throttle", wait if the wait is positive and ask again. */
  function RetryAnswers(b: Bucket, n: int, now: int, capacities: seq<int>): (answers: seq<bool>)
    ensures |answers| <= |capacities|
    ensures capacities != [] ==> |answers| >= 1
    decreases |capacities|
  {
    if capacities == [] then []
    else
      var d := Decide(b, n, now, capacities[0]);
      if d.throttled then [true] + RetryAnswers(d.after, n, now + (if d.wait > 0 then d.wait else 0), capacities[1..])
      else [false]
  }

  /** After a refused question, with a registered request, the wait reaches
      the refill, so the next question is refused exactly when the capacity
      the provider then answers is below `n`. */
  lemma RetryAfterWait(b: Bucket, n: int, now: int, capacity: int, next: int)
    requires b.concurrentRequestCount >= 1 && Decide(b, n, now, capacity).throttled
    ensures var d := Decide(b, n, now, capacity);
      var later := now + (if d.wait > 0 then d.wait else 0);
      d.after.concurrentRequestCount >= 1 && (Decide(d.after, n, later, next).throttled <==> next < n)
  {
    WaitReachesRefill(b, n, now, capacity);
  }

  /** Once the first question for the remainder is refused, with a registered
      request, every later answer depends on the capacity alone: the question
      is refused exactly while the provider answers less than the remainder,
      and the loop ends at the first consultation where it does not. */
  lemma {:induction false} RetryFollowsCapacity(b: Bucket, n: int, now: int, capacities: seq<int>)
    requires b.concurrentRequestCount >= 1
    requires capacities != [] && Decide(b, n, now, capacities[0]).throttled
    ensures var a := RetryAnswers(b, n, now, capacities);
      a[0] && (forall i :: 1 <= i < |a| ==> (a[i] <==> capacities[i] < n)) &&
      (forall i :: 0 <= i < |a| - 1 ==> a[i]) &&
      (|a| == |capacities| || !a[|a| - 1])
    decreases |capacities|
  {
    var d := Decide(b, n, now, capacities[0]);
    var later := now + (if d.wait > 0 then d.wait else 0);
    var a := RetryAnswers(b, n, now, capacities);
    var rest := RetryAnswers(d.after, n, later, capacities[1..]);
    assert a == [true] + rest;
    if |capacities| > 1 {
      RetryAfterWait(b, n, now, capacities[0], capacities[1]);
      if capacities[1] < n {
        RetryFollowsCapacity(d.after, n, later, capacities[1..]);
        forall i | 1 <= i < |a| ensures (a[i] <==> capacities[i] < n) {
          assert a[i] == rest[i - 1] && capacities[i] == capacities[1..][i - 1];
        }
      } else {
        assert rest == [false];
      }
    }
  }

  /** With a provider that keeps answering less than the remainder, the retry
      loop is refused at every consultation: it never ends. */
  lemma RetryNeverGrantedBelowRemainder(b: Bucket, n: int, now: int, capacities: seq<int>)
    requires b.concurrentRequestCount >= 1
    requires capacities != [] && Decide(b, n, now, capacities[0]).throttled
    requires forall i :: 0 <= i < |capacities| ==> capacities[i] < n
    ensures RetryAnswers(b, n, now, capacities) == seq(|capacities|, _ => true)
  {
    var a := RetryAnswers(b, n, now, capacities);
    RetryFollowsCapacity(b, n, now, capacities);
    assert |a| == |capacities|;
    assert forall i :: 0 <= i < |a| ==> a[i];
  }

  /** Where a write stands: the bucket, the clock, the bucket's answers so far
      and, as `granted`, the bucket as the question that granted the remainder
      found it. */
  datatype Progress = Progress(bucket: Bucket, clock: int, asks: seq<Ask>, granted: Bucket)

  function Prefixed(asks: seq<Ask>, r: Progress): Progress {
    r.(asks := asks + r.asks)
  }

  /** The clock after a question: moved on by the wait when it is positive. */
  function AfterWait(d: Decision, now: int): (later: int)
    ensures later >= now && (d.wait > 0 ==> later == now + d.wait) && (d.wait <= 0 ==> later == now)
  {
    now + (if d.wait > 0 then d.wait else 0)
  }

  /** The retry loop for the remaining `n` bytes, started with the bucket `b`
      at clock `now`, the capacity fixed for the write. A refused question is
      followed by a wait that reaches the refill, after which the capacity
      covers `n`: the bucket is asked once or twice, and the last answer is a
      grant. */
  function RetryRun(b: Bucket, n: int, now: int, rate: int): (r: Progress)
    requires b.concurrentRequestCount >= 1 && 0 <= n <= rate
    ensures 1 <= |r.asks| <= 2 && r.clock >= now
    ensures forall j :: 0 <= j < |r.asks| ==> r.asks[j].requested == n && (r.asks[j].throttled <==> j < |r.asks| - 1)
    ensures r.bucket.concurrentRequestCount == b.concurrentRequestCount
  {
    var d := Decide(b, n, now, rate);
    if !d.throttled then Progress(d.after, now, [Ask(n, false)], b)
    else
      var later := AfterWait(d, now);
      var d2 := Decide(d.after, n, later, rate);
      RetryAfterWait(b, n, now, rate, rate);
      Progress(d2.after, later, [Ask(n, true), Ask(n, d2.throttled)], d.after)
  }

  /** A whole throttled write of `remaining` bytes, started with the bucket
      `b` at clock `now`: before each full piece one question for every byte
      still to be written, waiting when refused but writing whatever the
      answer, then the retry loop for the remainder. */
  function WriteRun(b: Bucket, remaining: int, now: int, rate: int): (r: Progress)
    requires b.concurrentRequestCount >= 1 && 0 <= remaining && rate > 0
    ensures r.clock >= now && r.bucket.concurrentRequestCount == b.concurrentRequestCount
    decreases remaining
  {
    if remaining <= rate then RetryRun(b, remaining, now, rate)
    else
      var d := Decide(b, remaining, now, rate);
      var r := WriteRun(d.after, remaining - rate, AfterWait(d, now), rate);
      Progress(r.bucket, r.clock, [Ask(remaining, d.throttled)] + r.asks, r.granted)
  }

  /** The questions `asks` of the split loop, begun with the bucket `b` at
      `now` and `remaining` bytes to write, lead to the bucket `b'` at `now'`
      with `remaining'` bytes left: each asks for every byte still to be
      written while more than `rate` remain, is answered as `Decide` says, and
      moves the clock on by its wait. */
  ghost predicate Chain(b: Bucket, remaining: int, now: int, rate: int, asks: seq<Ask>,
                        b': Bucket, remaining': int, now': int)
    decreases |asks|
  {
    if asks == [] then b' == b && remaining' == remaining && now' == now
    else
      var d := Decide(b, remaining, now, rate);
      remaining > rate && asks[0] == Ask(remaining, d.throttled) &&
      Chain(d.after, remaining - rate, AfterWait(d, now), rate, asks[1..], b', remaining', now')
  }

  /** One more question of the split loop extends the chain by one link. */
  lemma {:induction false} ChainExtend(b: Bucket, remaining: int, now: int, rate: int, asks: seq<Ask>,
                                       b': Bucket, remaining': int, now': int, throttled: bool,
                                       asked: seq<Ask>, next: Bucket, left: int, later: int)
    requires Chain(b, remaining, now, rate, asks, b', remaining', now') && remaining' > rate
    requires var d := Decide(b', remaining', now', rate);
      throttled == d.throttled && next == d.after && later == AfterWait(d, now')
    requires asked == asks + [Ask(remaining', throttled)] && left == remaining' - rate
    ensures Chain(b, remaining, now, rate, asked, next, left, later)
    decreases |asks|
  {
    if asks == [] {
      assert asked[1..] == [];
    } else {
      var d := Decide(b, remaining, now, rate);
      assert asked[1..] == asks[1..] + [Ask(remaining', throttled)];
      ChainExtend(d.after, remaining - rate, AfterWait(d, now), rate, asks[1..], b', remaining', now', throttled,
                  asked[1..], next, left, later);
    }
  }

  /** The questions of the split loop are the first questions of the whole
      write, and the rest of the write goes on from where they left it. */
  lemma {:induction false} ChainRun(b: Bucket, remaining: int, now: int, rate: int, asks: seq<Ask>,
                                    b': Bucket, remaining': int, now': int)
    requires b.concurrentRequestCount >= 1 && 0 <= remaining' && rate > 0
    requires Chain(b, remaining, now, rate, asks, b', remaining', now')
    ensures remaining' <= remaining && b'.concurrentRequestCount == b.concurrentRequestCount
    ensures WriteRun(b, remaining, now, rate) == Prefixed(asks, WriteRun(b', remaining', now', rate))
    decreases |asks|
  {
    if asks != [] {
      var d := Decide(b, remaining, now, rate);
      ChainRun(d.after, remaining - rate, AfterWait(d, now), rate, asks[1..], b', remaining', now');
      var r := WriteRun(b', remaining', now', rate);
      assert asks == [asks[0]] + asks[1..];
      assert asks + r.asks == [asks[0]] + (asks[1..] + r.asks);
    }
  }

  /** The split loop asks, in order, for the sizes `PieceRequests` lists. */
  lemma {:induction false} ChainRequested(b: Bucket, remaining: int, now: int, rate: int, asks: seq<Ask>,
                                          b': Bucket, remaining': int, now': int)
    requires rate > 0 && Chain(b, remaining, now, rate, asks, b', remaining', now')
    ensures Requested(asks) + PieceRequests(remaining', rate) == PieceRequests(remaining, rate)
    decreases |asks|
  {
    if asks != [] {
      var d := Decide(b, remaining, now, rate);
      ChainRequested(d.after, remaining - rate, AfterWait(d, now), rate, asks[1..], b', remaining', now');
      assert Requested(asks) == [remaining] + Requested(asks[1..]);
    }
  }

  /** Once at most one rate of bytes remains, the rest of the write is the retry loop. */
  lemma WriteRunEnd(target: Progress, asks: seq<Ask>, b: Bucket, remaining: int, now: int, rate: int, r: Progress)
    requires b.concurrentRequestCount >= 1 && 0 <= remaining <= rate && rate > 0
    requires target == Prefixed(asks, WriteRun(b, remaining, now, rate))
    requires r == RetryRun(b, remaining, now, rate)
    ensures target == Progress(r.bucket, r.clock, asks + r.asks, r.granted)
  {
  }

  /** The retry loop ends with a grant of the remainder: the bucket it leaves
      is the grant's, its refilled tokens lowered by `n`, from the bucket as
      it began or, after one refused question and its wait, as that question
      left it. A grant after a wait comes from a full bucket. */
  lemma RetryRunGrants(b: Bucket, n: int, now: int, rate: int)
    requires b.concurrentRequestCount >= 1 && 0 <= n <= rate
    ensures var r := RetryRun(b, n, now, rate);
      r.granted == (if |r.asks| == 1 then b else Decide(b, n, now, rate).after)
    ensures var r := RetryRun(b, n, now, rate);
      var d := Decide(r.granted, n, r.clock, rate);
      !d.throttled && r.bucket == d.after && r.bucket.tokens == Refilled(r.granted, r.clock, rate).tokens - n
    ensures var r := RetryRun(b, n, now, rate);
      |r.asks| == 2 ==> r.bucket.tokens == rate - n
  {
    var d := Decide(b, n, now, rate);
    if d.throttled {
      WaitReachesRefill(b, n, now, rate);
    }
  }

  /** A write keeps the bucket's invariant: its tokens stay between 0 and the
      capacity of the last refill. */
  lemma {:induction false} WriteRunWithinCapacity(b: Bucket, remaining: int, now: int, rate: int)
    requires b.concurrentRequestCount >= 1 && 0 <= remaining && rate > 0
    requires WithinCapacity(b)
    ensures WithinCapacity(WriteRun(b, remaining, now, rate).bucket)
    decreases remaining
  {
    if remaining > rate {
      var d := Decide(b, remaining, now, rate);
      WriteRunWithinCapacity(d.after, remaining - rate, AfterWait(d, now), rate);
    }
  }

  class ThrottledStream {
    const inner: ByteStream
    const tokenBucket: FixedTokenBucket

    constructor (inner: ByteStream, tokenBucket: FixedTokenBucket)
      ensures this.inner == inner && this.tokenBucket == tokenBucket
    {
      this.inner := inner;
      this.tokenBucket := tokenBucket;
    }

    /** `WriteAsync(buffer, offset, count)` started at clock time `now`, with
        the capacity provider answering `capacity` for this write (the rate is
        read once per write). Returns the clock after the last wait and, as
        ghosts, the bucket's answers in order, everything that happened in
        order, and the bucket as the granting question found it. */
    method WriteAsync(buffer: array<byte>, offset: int, count: int, capacity: int, now: int)
      returns (clock: int, ghost asks: seq<Ask>, ghost trace: seq<Event>, ghost granted: Bucket)
      requires 0 <= offset && 0 <= count && offset + count <= buffer.Length
      requires capacity > 0 ==> tokenBucket.concurrentRequestCount >= 1
      modifies inner, tokenBucket
      ensures clock >= now
      ensures capacity <= 0 ==>
        inner.written == old(inner.written) + [buffer[offset..offset + count]] &&
        tokenBucket.State() == old(tokenBucket.State()) && asks == [] && clock == now &&
        trace == [Wrote(buffer[offset..offset + count])]
      // the bucket, the clock and the answers are those of the whole write
      // run from the bucket as the write found it
      ensures capacity > 0 ==>
        var r := WriteRun(old(tokenBucket.State()), count, now, capacity);
        tokenBucket.State() == r.bucket && clock == r.clock && asks == r.asks && granted == r.granted
      ensures capacity > 0 ==>
        var chunks := SplitWrite(buffer[offset..offset + count], capacity);
        inner.written == old(inner.written) + chunks &&
        |chunks| <= |asks| && trace == WriteTrace(asks, chunks) &&
        // every piece but the last is preceded by one question for all the bytes
        // still to be written (`PieceRequestsValues` gives them in closed form)
        Requested(asks[..|chunks| - 1]) == PieceRequests(count, capacity) &&
        // the remainder is asked for until the bucket grants it
        (forall j :: |chunks| - 1 <= j < |asks| ==>
          asks[j].requested == |chunks[|chunks| - 1]| && (asks[j].throttled <==> j < |asks| - 1))
      // and only then written, the grant having taken the remainder out of the bucket
      ensures capacity > 0 ==>
        var chunks := SplitWrite(buffer[offset..offset + count], capacity);
        var last := chunks[|chunks| - 1];
        var d := Decide(granted, |last|, clock, capacity);
        Writes(trace) == chunks && EachWriteFollowsAsk(trace) && |trace| >= 2 &&
        trace[|trace| - 2] == Asked(Ask(|last|, false)) && trace[|trace| - 1] == Wrote(last) &&
        !d.throttled && tokenBucket.State() == d.after &&
        tokenBucket.tokens == Refilled(granted, clock, capacity).tokens - |last|
      ensures tokenBucket.concurrentRequestCount == old(tokenBucket.concurrentRequestCount)
      ensures inner.unread == old(inner.unread) && inner.flushes == old(inner.flushes)
    {
      var rateBytesPerSecond := capacity;
      if rateBytesPerSecond <= 0 {
        inner.Write(buffer[offset..offset + count]);
        return now, [], [Wrote(buffer[offset..offset + count])], tokenBucket.State();
      }
      clock, asks, trace, granted := WriteThrottled(buffer, offset, count, rateBytesPerSecond, now);
      WriteTraceWrites(asks, SplitWrite(buffer[offset..offset + count], rateBytesPerSecond));
      WriteTraceOrder(asks, SplitWrite(buffer[offset..offset + count], rateBytesPerSecond));
    }

    /** `WriteAsync` once the rate is known to be positive: the split loop, then
        the retry loop, then the write of the remainder. */
    method WriteThrottled(buffer: array<byte>, offset: int, count: int, rate: int, now: int)
      returns (clock: int, ghost asks: seq<Ask>, ghost trace: seq<Event>, ghost granted: Bucket)
      requires 0 <= offset && 0 <= count && offset + count <= buffer.Length
      requires rate > 0 && tokenBucket.concurrentRequestCount >= 1
      modifies inner, tokenBucket
      ensures clock >= now
      ensures
        var chunks := SplitWrite(buffer[offset..offset + count], rate);
        inner.written == old(inner.written) + chunks &&
        |chunks| <= |asks| && trace == WriteTrace(asks, chunks) &&
        Requested(asks[..|chunks| - 1]) == PieceRequests(count, rate) &&
        (forall j :: |chunks| - 1 <= j < |asks| ==>
          asks[j].requested == |chunks[|chunks| - 1]| && (asks[j].throttled <==> j < |asks| - 1)) &&
        var d := Decide(granted, |chunks[|chunks| - 1]|, clock, rate);
        !d.throttled && tokenBucket.State() == d.after
      ensures var r := WriteRun(old(tokenBucket.State()), count, now, rate);
        tokenBucket.State() == r.bucket && clock == r.clock && asks == r.asks && granted == r.granted
      ensures tokenBucket.concurrentRequestCount == old(tokenBucket.concurrentRequestCount)
      ensures inner.unread == old(inner.unread) && inner.flushes == old(inner.flushes)
    {
      ghost var chunks := SplitWrite(buffer[offset..offset + count], rate);
      var position, tempCountBytes;
      ghost var splitAsks, pieces, splitTrace, finalAsks;
      position, tempCountBytes, clock, splitAsks, pieces, splitTrace :=
        WritePieces(buffer, offset, count, rate, now);
      ghost var last := buffer[position..position + tempCountBytes];
      ghost var s, c := tokenBucket.State(), clock;
      ChainRun(old(tokenBucket.State()), count, now, rate, splitAsks, s, tempCountBytes, c);
      clock, finalAsks, granted := WriteRemainder(buffer, position, tempCountBytes, rate, clock);
      WriteRunEnd(WriteRun(old(tokenBucket.State()), count, now, rate), splitAsks, s, tempCountBytes, c, rate,
                  RetryRun(s, tempCountBytes, c, rate));
      asks := splitAsks + finalAsks;
      trace := splitTrace + AskEvents(finalAsks) + [Wrote(last)];
      ComposeWrite(old(inner.written), pieces, last, chunks, splitAsks, finalAsks, count, rate);
      assert buffer[offset..offset + count] == old(buffer[offset..offset + count]);
    }

    /** The retry loop, then the write of the remainder once it is granted. */
    method WriteRemainder(buffer: array<byte>, position: int, remaining: int, rate: int, start: int)
      returns (clock: int, ghost asks: seq<Ask>, ghost granted: Bucket)
      requires 0 <= position && 0 <= remaining <= rate && position + remaining <= buffer.Length
      requires tokenBucket.concurrentRequestCount >= 1
      modifies inner, tokenBucket
      ensures inner.written == old(inner.written) + [buffer[position..position + remaining]]
      ensures |asks| >= 1 && clock >= start
      ensures forall j :: 0 <= j < |asks| ==> asks[j].requested == remaining && (asks[j].throttled <==> j < |asks| - 1)
      ensures var d := Decide(granted, remaining, clock, rate);
        !d.throttled && tokenBucket.State() == d.after
      ensures var r := RetryRun(old(tokenBucket.State()), remaining, start, rate);
        tokenBucket.State() == r.bucket && clock == r.clock && asks == r.asks && granted == r.granted
      ensures tokenBucket.concurrentRequestCount == old(tokenBucket.concurrentRequestCount)
      ensures inner.unread == old(inner.unread) && inner.flushes == old(inner.flushes)
    {
      clock, asks, granted := AwaitTokens(remaining, rate, start);
      inner.Write(buffer[position..position + remaining]);
    }

    /** The first loop of `WriteAsync`: while more than `rate` bytes remain,
        ask the bucket for all of them, wait if told to, and write `rate` bytes
        whatever the answer. Returns where the remainder starts, its length, the
        clock, the answers, the pieces written and the events in order. */
    method WritePieces(buffer: array<byte>, offset: int, count: int, rate: int, now: int)
      returns (position: int, remaining: int, clock: int,
               ghost asks: seq<Ask>, ghost pieces: seq<seq<byte>>, ghost trace: seq<Event>)
      requires 0 <= offset && 0 <= count && offset + count <= buffer.Length
      requires rate > 0 && tokenBucket.concurrentRequestCount >= 1
      modifies inner, tokenBucket
      ensures 0 <= remaining <= rate && offset <= position && position + remaining == offset + count
      ensures inner.written == old(inner.written) + pieces
      ensures pieces + [buffer[position..position + remaining]] == SplitWrite(buffer[offset..offset + count], rate)
      ensures |asks| == |pieces| && trace == Interleaved(asks, pieces)
      ensures Requested(asks) == PieceRequests(count, rate)
      ensures clock >= now
      ensures tokenBucket.concurrentRequestCount == old(tokenBucket.concurrentRequestCount)
      // the questions asked so far, and what is left of the whole write
      ensures Chain(old(tokenBucket.State()), count, now, rate, asks, tokenBucket.State(), remaining, clock)
      ensures inner.unread == old(inner.unread) && inner.flushes == old(inner.flushes)
    {
      ghost var whole := buffer[offset..offset + count];
      ghost var rest := whole;
      clock := now;
      asks, pieces, trace := [], [], [];
      position := offset;
      remaining := count;
      while remaining > rate
        invariant 0 <= remaining && offset <= position && position + remaining == offset + count
        invariant rest == buffer[position..offset + count]
        invariant SplitProgress(whole, rest, asks, pieces, trace, rate)
        invariant inner.written == old(inner.written) + pieces
        invariant clock >= now
        invariant tokenBucket.concurrentRequestCount == old(tokenBucket.concurrentRequestCount)
        invariant Chain(old(tokenBucket.State()), count, now, rate, asks, tokenBucket.State(), remaining, clock)
        invariant inner.unread == old(inner.unread) && inner.flushes == old(inner.flushes)
        decreases remaining
      {
        ghost var before, start, asked, left := tokenBucket.State(), clock, asks, remaining;
        ghost var was, done, events := rest, pieces, trace;
        ghost var piece := rest[..rate];
        assert piece == buffer[position..position + rate] && rest[rate..] == buffer[position + rate..offset + count];
        var throttled;
        throttled, clock := WritePiece(buffer, position, remaining, rate, clock);
        asks := asks + [Ask(remaining, throttled)];
        pieces := pieces + [piece];
        trace := trace + [Asked(Ask(remaining, throttled)), Wrote(piece)];
        rest := rest[rate..];
        position := position + rate;
        remaining := remaining - rate;
        PieceStep(whole, was, asked, done, events, rate, throttled, rest, asks, pieces, trace);
        ChainExtend(old(tokenBucket.State()), count, now, rate, asked, before, left, start, throttled,
                    asks, tokenBucket.State(), remaining, clock);
      }
      assert SplitWrite(rest, rate) == [rest];
      ChainRequested(old(tokenBucket.State()), count, now, rate, asks, tokenBucket.State(), remaining, clock);
      PieceRequestsCount(whole, rate);
    }

    /** One pass of the split loop: ask the bucket for all `remaining` bytes,
        wait if told to, then write the `rate` bytes at `position` whatever the
        answer. */
    method WritePiece(buffer: array<byte>, position: int, remaining: int, rate: int, start: int)
      returns (throttled: bool, clock: int)
      requires 0 <= position && position + rate <= buffer.Length && rate > 0
      modifies inner, tokenBucket
      ensures inner.written == old(inner.written) + [buffer[position..position + rate]]
      ensures var d := Decide(old(tokenBucket.State()), remaining, start, rate);
        throttled == d.throttled && tokenBucket.State() == d.after && clock == AfterWait(d, start)
      ensures tokenBucket.concurrentRequestCount == old(tokenBucket.concurrentRequestCount)
      ensures inner.unread == old(inner.unread) && inner.flushes == old(inner.flushes)
    {
      clock := start;
      var wait;
      throttled, wait := tokenBucket.ShouldThrottle(remaining, clock, rate);
      if throttled && wait > 0 {
        clock := clock + wait;
      }
      inner.Write(buffer[position..position + rate]);
    }

    /** The second loop of `WriteAsync`: ask for the remaining `n` bytes until
        the bucket grants them, waiting whenever it answers "throttle". With a
        registered request the wait reaches the refill instant, and the
        capacity, fixed for the write, covers `n`, so the loop ends after at
        most one wait. Returns the clock at the grant, the answers and, as
        `granted`, the bucket as the granting question found it. */
    method AwaitTokens(n: int, rate: int, start: int) returns (clock: int, ghost asks: seq<Ask>, ghost granted: Bucket)
      requires 0 <= n <= rate
      requires tokenBucket.concurrentRequestCount >= 1
      modifies tokenBucket
      ensures |asks| >= 1 && clock >= start
      ensures forall j :: 0 <= j < |asks| ==> asks[j].requested == n && (asks[j].throttled <==> j < |asks| - 1)
      ensures var d := Decide(granted, n, clock, rate);
        !d.throttled && tokenBucket.State() == d.after &&
        tokenBucket.tokens == Refilled(granted, clock, rate).tokens - n
      // at most one wait; the grant is asked of the bucket as the loop found
      // it, or as the one refused question left it
      ensures |asks| <= 2
      ensures |asks| == 1 ==> granted == old(tokenBucket.State()) && clock == start
      ensures |asks| == 2 ==> granted == Decide(old(tokenBucket.State()), n, start, rate).after
      ensures var r := RetryRun(old(tokenBucket.State()), n, start, rate);
        tokenBucket.State() == r.bucket && clock == r.clock && asks == r.asks && granted == r.granted
      ensures tokenBucket.concurrentRequestCount == old(tokenBucket.concurrentRequestCount)
    {
      clock := start;
      granted := tokenBucket.State();
      var throttled, wait := tokenBucket.ShouldThrottle(n, clock, rate);
      asks := [Ask(n, throttled)];
      if throttled {
        WaitReachesRefill(old(tokenBucket.State()), n, start, rate);
      }
      while throttled
        invariant |asks| >= 1 && clock >= start
        invariant forall j :: 0 <= j < |asks| ==> asks[j].requested == n && (asks[j].throttled <==> j < |asks| - 1 || throttled)
        invariant var d := Decide(granted, n, clock, rate);
          throttled == d.throttled && wait == d.wait && tokenBucket.State() == d.after
        invariant throttled ==> clock + wait >= tokenBucket.nextRefillTime && wait > 0
        invariant tokenBucket.concurrentRequestCount == old(tokenBucket.concurrentRequestCount)
        invariant |asks| <= 2 && (throttled ==> |asks| == 1)
        invariant |asks| == 1 ==> granted == old(tokenBucket.State()) && clock == start
        invariant |asks| == 2 ==> granted == Decide(old(tokenBucket.State()), n, start, rate).after
        invariant !throttled ==> var r := RetryRun(old(tokenBucket.State()), n, start, rate);
          tokenBucket.State() == r.bucket && clock == r.clock && asks == r.asks && granted == r.granted
        decreases if throttled then 1 else 0
      {
        if wait > 0 {
          clock := clock + wait;
        }
        granted := tokenBucket.State();
        throttled, wait := tokenBucket.ShouldThrottle(n, clock, rate);
        asks := asks + [Ask(n, throttled)];
      }
    }

    /** The synchronous `Write` waits for `WriteAsync`. */
    method Write(buffer: array<byte>, offset: int, count: int, capacity: int, now: int)
      returns (clock: int)
      requires 0 <= offset && 0 <= count && offset + count <= buffer.Length
      requires capacity > 0 ==> tokenBucket.concurrentRequestCount >= 1
      modifies inner, tokenBucket
      ensures clock >= now
      ensures capacity <= 0 ==>
        inner.written == old(inner.written) + [buffer[offset..offset + count]] &&
        tokenBucket.State() == old(tokenBucket.State())
      ensures capacity > 0 ==>
        inner.written == old(inner.written) + SplitWrite(buffer[offset..offset + count], capacity)
      ensures capacity > 0 ==>
        var r := WriteRun(old(tokenBucket.State()), count, now, capacity);
        tokenBucket.State() == r.bucket && clock == r.clock
      ensures capacity <= 0 ==> clock == now
      ensures tokenBucket.concurrentRequestCount == old(tokenBucket.concurrentRequestCount)
      ensures inner.unread == old(inner.unread) && inner.flushes == old(inner.flushes)
    {
      ghost var asks, trace, granted;
      clock, asks, trace, granted := WriteAsync(buffer, offset, count, capacity, now);
    }

    /** Reads are not throttled: the bucket is not consulted. */
    method Read(count: nat) returns (data: seq<byte>)
      modifies inner
      ensures |data| == if count <= |old(inner.unread)| then count else |old(inner.unread)|
      ensures old(inner.unread) == data + inner.unread
      ensures inner.written == old(inner.written) && inner.flushes == old(inner.flushes)
    {
      data := inner.Read(count);
    }

    method ReadAsync(count: nat) returns (data: seq<byte>)
      modifies inner
      ensures |data| == if count <= |old(inner.unread)| then count else |old(inner.unread)|
      ensures old(inner.unread) == data + inner.unread
      ensures inner.written == old(inner.written) && inner.flushes == old(inner.flushes)
    {
      data := inner.Read(count);
    }

    method Flush()
      modifies inner
      ensures inner.flushes == old(inner.flushes) + 1
      ensures inner.written == old(inner.written) && inner.unread == old(inner.unread)
    {
      inner.Flush();
    }
  }
}
