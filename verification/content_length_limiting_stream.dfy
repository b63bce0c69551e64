/** The content-length limiting stream: a request body wrapper that keeps a
    running total of what its reads return and fails a read once the total
    passes the maximum. Writes, flushes and copies go straight to the inner
    stream and are not counted. */
module ContentLength {
  import opened Http
  import opened Streams

  /** The two exceptions the wrapper raises. */
  datatype LengthFault = ContentLengthRequired | ContentLengthExceeded

  /** A read either returns its value or raises one of the two faults. */
  datatype Outcome<+T> = Returned(value: T) | Threw(fault: LengthFault)

  /** The check made once the running total is `total` and the maximum is
      `max`: the total is accepted exactly when it does not pass the maximum,
      and a maximum of 0 turns every failure into "content length required". */
  function Validate(total: int, max: int): (r: Option<LengthFault>)
    ensures r == None <==> total <= max
    ensures r == Some(ContentLengthRequired) <==> total > 0 && max == 0
  {
    if total > 0 && max == 0 then Some(ContentLengthRequired)
    else if total > max then Some(ContentLengthExceeded)
    else None
  }

  function Sum(counts: seq<nat>): int
    decreases |counts|
  {
    if counts == [] then 0 else counts[0] + Sum(counts[1..])
  }

  lemma {:induction false} SumNonNegative(counts: seq<nat>)
    ensures Sum(counts) >= 0
    decreases |counts|
  {
    if counts != [] {
      SumNonNegative(counts[1..]);
    }
  }

  /** The fault raised by the first failing read when reads returning `counts`
      bytes follow one another from the running total `total`; None if none fails. */
  function FirstFault(total: int, max: int, counts: seq<nat>): Option<LengthFault>
    decreases |counts|
  {
    if counts == [] then None
    else
      var t := total + counts[0];
      if Validate(t, max).Some? then Validate(t, max) else FirstFault(t, max, counts[1..])
  }

  /** Once the limit is passed, every later read fails again with the same
      fault: reads returning no negative count never lower the total. */
  lemma {:induction false} FailureIsSticky(total: int, max: int, later: seq<nat>)
    requires Validate(total, max).Some?
    ensures Validate(total + Sum(later), max) == Validate(total, max)
  {
    SumNonNegative(later);
  }

  /** Reading a body in pieces fails exactly when the whole of it would fail
      the check, and with the same fault: the first failure is decided by the
      final total. */
  lemma {:induction false} FirstFaultIsFinalCheck(total: int, max: int, counts: seq<nat>)
    requires total <= max
    ensures FirstFault(total, max, counts) == Validate(total + Sum(counts), max)
    decreases |counts|
  {
    if counts != [] {
      var t := total + counts[0];
      if Validate(t, max).Some? {
        FailureIsSticky(t, max, counts[1..]);
      } else {
        FirstFaultIsFinalCheck(t, max, counts[1..]);
      }
    }
  }

  /** How many bytes a read of `count` takes from a stream holding `available`. */
  function Taken(count: nat, available: nat): (n: nat)
    ensures n <= count && n <= available && (n == count || n == available)
  {
    if count <= available then count else available
  }

  class ContentLengthLimitingStream {
    const inner: ByteStream
    const maxRequestSizeInBytes: int
    var totalBytesReadCount: int
    /** The number of bytes the reads of this wrapper have taken from `inner`. */
    ghost var consumed: int

    /** The running total is the number of bytes read through the wrapper. */
    ghost predicate CountsConsumed()
      reads this
    {
      totalBytesReadCount == consumed
    }

    constructor (inner: ByteStream, maxReceivedMessageSize: int)
      ensures this.inner == inner && maxRequestSizeInBytes == maxReceivedMessageSize
      ensures totalBytesReadCount == 0 && consumed == 0
    {
      this.inner := inner;
      maxRequestSizeInBytes := maxReceivedMessageSize;
      totalBytesReadCount := 0;
      consumed := 0;
    }

    /** Adds what a read returned to the running total, then checks it. */
    method ValidateRequestSize(currentNumberOfBytesRead: int) returns (fault: Option<LengthFault>)
      modifies this`totalBytesReadCount
      ensures totalBytesReadCount == old(totalBytesReadCount) + currentNumberOfBytesRead
      ensures fault == Validate(totalBytesReadCount, maxRequestSizeInBytes)
    {
      totalBytesReadCount := totalBytesReadCount + currentNumberOfBytesRead;
      if totalBytesReadCount > 0 && maxRequestSizeInBytes == 0 {
        return Some(ContentLengthRequired);
      }
      if totalBytesReadCount > maxRequestSizeInBytes {
        return Some(ContentLengthExceeded);
      }
      return None;
    }

    /** Reads from the inner stream, then validates. The bytes are taken from
        the inner stream even when the read fails. */
    method Read(count: nat) returns (r: Outcome<seq<byte>>)
      modifies this, inner
      ensures var n := Taken(count, |old(inner.unread)|);
        inner.unread == old(inner.unread)[n..] &&
        totalBytesReadCount == old(totalBytesReadCount) + n &&
        consumed == old(consumed) + n &&
        r == match Validate(totalBytesReadCount, maxRequestSizeInBytes)
             case None => Returned(old(inner.unread)[..n])
             case Some(f) => Threw(f)
      ensures old(CountsConsumed()) ==> CountsConsumed()
      ensures inner.written == old(inner.written) && inner.flushes == old(inner.flushes)
    {
      var data := inner.Read(count);
      consumed := consumed + |data|;
      var fault := ValidateRequestSize(|data|);
      match fault
      case None => r := Returned(data);
      case Some(f) => r := Threw(f);
    }

    method ReadAsync(count: nat) returns (r: Outcome<seq<byte>>)
      modifies this, inner
      ensures var n := Taken(count, |old(inner.unread)|);
        inner.unread == old(inner.unread)[n..] &&
        totalBytesReadCount == old(totalBytesReadCount) + n &&
        consumed == old(consumed) + n &&
        r == match Validate(totalBytesReadCount, maxRequestSizeInBytes)
             case None => Returned(old(inner.unread)[..n])
             case Some(f) => Threw(f)
      ensures old(CountsConsumed()) ==> CountsConsumed()
      ensures inner.written == old(inner.written) && inner.flushes == old(inner.flushes)
    {
      r := Read(count);
    }

    /** As written: adds the value `ReadByte` returns to the total, that is the
        byte's value (0 to 255), or -1 at the end of the stream. */
    method ReadByte() returns (r: Outcome<int>)
      modifies this, inner
      ensures var v := if old(inner.unread) == [] then -1 else old(inner.unread)[0] as int;
        totalBytesReadCount == old(totalBytesReadCount) + v &&
        r == match Validate(totalBytesReadCount, maxRequestSizeInBytes)
             case None => Returned(v)
             case Some(f) => Threw(f)
      ensures inner.unread == if old(inner.unread) == [] then [] else old(inner.unread)[1..]
      ensures consumed == old(consumed) + (if old(inner.unread) == [] then 0 else 1)
      ensures inner.written == old(inner.written) && inner.flushes == old(inner.flushes)
    {
      var value := inner.ReadByte();
      if value >= 0 {
        consumed := consumed + 1;
      }
      var fault := ValidateRequestSize(value);
      match fault
      case None => r := Returned(value);
      case Some(f) => r := Threw(f);
    }

    /** `ReadByte` as evidently intended: a byte read counts as one byte and
        the end of the stream counts as none, so the total stays the number of
        bytes read. */
    method ReadByteCounted() returns (r: Outcome<int>)
      modifies this, inner
      ensures var v := if old(inner.unread) == [] then -1 else old(inner.unread)[0] as int;
        r == match Validate(totalBytesReadCount, maxRequestSizeInBytes)
             case None => Returned(v)
             case Some(f) => Threw(f)
      ensures totalBytesReadCount == old(totalBytesReadCount) + (if old(inner.unread) == [] then 0 else 1)
      ensures old(CountsConsumed()) ==> CountsConsumed()
      ensures inner.unread == if old(inner.unread) == [] then [] else old(inner.unread)[1..]
      ensures inner.written == old(inner.written) && inner.flushes == old(inner.flushes)
    {
      var value := inner.ReadByte();
      var counted := 0;
      if value >= 0 {
        consumed := consumed + 1;
        counted := 1;
      }
      var fault := ValidateRequestSize(counted);
      match fault
      case None => r := Returned(value);
      case Some(f) => r := Threw(f);
    }

    method Write(data: seq<byte>)
      modifies inner
      ensures inner.written == old(inner.written) + [data]
      ensures inner.unread == old(inner.unread) && inner.flushes == old(inner.flushes)
    {
      inner.Write(data);
    }

    method WriteAsync(data: seq<byte>)
      modifies inner
      ensures inner.written == old(inner.written) + [data]
      ensures inner.unread == old(inner.unread) && inner.flushes == old(inner.flushes)
    {
      inner.Write(data);
    }

    method WriteByte(value: byte)
      modifies inner
      ensures inner.written == old(inner.written) + [[value]]
      ensures inner.unread == old(inner.unread) && inner.flushes == old(inner.flushes)
    {
      inner.Write([value]);
    }

    method Flush()
      modifies inner
      ensures inner.flushes == old(inner.flushes) + 1
      ensures inner.unread == old(inner.unread) && inner.written == old(inner.written)
    {
      inner.Flush();
    }

    method FlushAsync()
      modifies inner
      ensures inner.flushes == old(inner.flushes) + 1
      ensures inner.unread == old(inner.unread) && inner.written == old(inner.written)
    {
      inner.Flush();
    }

    /** Copies the rest of the body to `destination` through the inner stream:
        the bytes leave the body but the running total does not see them. */
    method CopyToAsync(destination: ByteStream)
      requires destination != inner
      modifies inner, destination
      ensures destination.written == old(destination.written) + [old(inner.unread)]
      ensures inner.unread == [] && inner.written == old(inner.written) && inner.flushes == old(inner.flushes)
      ensures destination.unread == old(destination.unread)
      ensures destination.flushes == old(destination.flushes)
    {
      inner.CopyTo(destination);
    }
  }

  /** The counts the reads of a stream holding `available` bytes return when
      each asks for `size` bytes, up to the read that empties it. */
  function ChunkCounts(available: nat, size: nat): (counts: seq<nat>)
    requires size > 0
    ensures forall i :: 0 <= i < |counts| ==> 0 < counts[i] <= size
    decreases available
  {
    if available == 0 then []
    else [Taken(size, available)] + ChunkCounts(available - Taken(size, available), size)
  }

  /** The reads up to the end of the stream, and the final empty read, return
      the whole stream between them. */
  lemma {:induction false} ChunkCountsCover(available: nat, size: nat)
    requires size > 0
    ensures Sum(ChunkCounts(available, size) + [0]) == available
    decreases available
  {
    if available > 0 {
      var n := Taken(size, available);
      var rest := ChunkCounts(available - n, size);
      assert (([n] + rest) + [0])[1..] == rest + [0];
      ChunkCountsCover(available - n, size);
    }
  }

  /** Read to its end from a running total within the maximum, a body fails
      exactly when its whole length would fail the check, and with that fault. */
  lemma ReadToEndIsWholeCheck(total: int, max: int, available: nat, size: nat)
    requires size > 0 && total <= max
    ensures FirstFault(total, max, ChunkCounts(available, size) + [0]) == Validate(total + available, max)
  {
    FirstFaultIsFinalCheck(total, max, ChunkCounts(available, size) + [0]);
    ChunkCountsCover(available, size);
  }

  /** One read of `size` bytes from a stream holding `available`: the outcome
      of reading to the end is the read's own fault, or, when the read passes
      the check, the outcome of reading the rest (none once the stream is empty). */
  lemma ReadStep(total: int, max: int, available: nat, size: nat)
    requires size > 0
    ensures var n := Taken(size, available);
      var outcome := FirstFault(total, max, ChunkCounts(available, size) + [0]);
      (Validate(total + n, max).Some? ==> outcome == Validate(total + n, max)) &&
      (Validate(total + n, max).None? && n == 0 ==> outcome == None) &&
      (Validate(total + n, max).None? && n > 0 ==>
        outcome == FirstFault(total + n, max, ChunkCounts(available - n, size) + [0]))
  {
    var counts := ChunkCounts(available, size);
    if available > 0 {
      assert (counts + [0])[0] == Taken(size, available);
      assert (counts + [0])[1..] == ChunkCounts(available - Taken(size, available), size) + [0];
    } else {
      assert counts + [0] == [0];
    }
  }

  /** A consumer reading the body through the wrapper in reads of `size`
      bytes, until a read fails or a read returns nothing. */
  method ReadBodyToEnd(limited: ContentLengthLimitingStream, size: nat) returns (fault: Option<LengthFault>, body: seq<byte>)
    requires size > 0
    modifies limited, limited.inner
    ensures fault == FirstFault(old(limited.totalBytesReadCount), limited.maxRequestSizeInBytes,
                                ChunkCounts(|old(limited.inner.unread)|, size) + [0])
    ensures old(limited.totalBytesReadCount) <= limited.maxRequestSizeInBytes ==>
      fault == Validate(old(limited.totalBytesReadCount) + |old(limited.inner.unread)|, limited.maxRequestSizeInBytes)
    ensures fault == None ==> body == old(limited.inner.unread) && limited.inner.unread == []
    ensures old(limited.CountsConsumed()) ==> limited.CountsConsumed()
  {
    if limited.totalBytesReadCount <= limited.maxRequestSizeInBytes {
      ReadToEndIsWholeCheck(limited.totalBytesReadCount, limited.maxRequestSizeInBytes, |limited.inner.unread|, size);
    }
    ghost var outcome := FirstFault(limited.totalBytesReadCount, limited.maxRequestSizeInBytes,
                                    ChunkCounts(|limited.inner.unread|, size) + [0]);
    fault := None;
    body := [];
    var done := false;
    while !done
      invariant !done ==> outcome == FirstFault(limited.totalBytesReadCount, limited.maxRequestSizeInBytes,
                                                ChunkCounts(|limited.inner.unread|, size) + [0])
      invariant done ==> fault == outcome
      invariant !done ==> fault == None
      invariant fault == None ==> old(limited.inner.unread) == body + limited.inner.unread
      invariant done && fault == None ==> limited.inner.unread == []
      invariant old(limited.CountsConsumed()) ==> limited.CountsConsumed()
      decreases !done, |limited.inner.unread|
    {
      var f, data := ReadNext(limited, size);
      if f.Some? {
        fault := f;
        done := true;
      } else if data == [] {
        done := true;
      } else {
        body := body + data;
      }
    }
  }

  /** One read of the consumer's loop: a failing read's fault is the outcome
      of reading to the end; a passing read returns the next bytes, and the
      outcome is then that of reading the rest, or none once nothing is left. */
  method ReadNext(limited: ContentLengthLimitingStream, size: nat) returns (fault: Option<LengthFault>, data: seq<byte>)
    requires size > 0
    modifies limited, limited.inner
    ensures var outcome := FirstFault(old(limited.totalBytesReadCount), limited.maxRequestSizeInBytes,
                                      ChunkCounts(|old(limited.inner.unread)|, size) + [0]);
      (fault.Some? ==> fault == outcome) &&
      (fault == None ==> old(limited.inner.unread) == data + limited.inner.unread) &&
      (fault == None && data == [] ==> outcome == None && limited.inner.unread == []) &&
      (fault == None && data != [] ==>
        outcome == FirstFault(limited.totalBytesReadCount, limited.maxRequestSizeInBytes,
                              ChunkCounts(|limited.inner.unread|, size) + [0]))
    ensures old(limited.CountsConsumed()) ==> limited.CountsConsumed()
  {
    ReadStep(limited.totalBytesReadCount, limited.maxRequestSizeInBytes, |limited.inner.unread|, size);
    var r := limited.Read(size);
    match r
    case Threw(f) =>
      fault := Some(f);
      data := [];
    case Returned(d) =>
      fault := None;
      data := d;
  }

  /** With a maximum of 10, reading a one-byte body "A" through `ReadByte`
      fails with "content length exceeded": the byte counts as 65. */
  method ReadByteOneByteBody() returns (r: Outcome<int>)
    ensures r == Threw(ContentLengthExceeded)
  {
    var body := new ByteStream([65]);
    var limited := new ContentLengthLimitingStream(body, 10);
    r := limited.ReadByte();
  }

  /** With a maximum of 10, all twelve bytes of a body of zero bytes are read
      through `ReadByte` without a failure: each zero byte counts as nothing. */
  method ReadByteZeroBytesPass() returns (accepted: nat)
    ensures accepted == 12
  {
    var body := new ByteStream(seq(12, _ => 0));
    var limited := new ContentLengthLimitingStream(body, 10);
    var calls := 0;
    accepted := 0;
    while calls < 12
      invariant 0 <= calls <= 12 && accepted == calls
      invariant body.unread == seq(12 - calls, _ => 0)
      invariant limited.totalBytesReadCount == 0 && limited.maxRequestSizeInBytes == 10
      invariant limited.inner == body
      decreases 12 - calls
    {
      var r := limited.ReadByte();
      if r.Returned? {
        accepted := accepted + 1;
      }
      calls := calls + 1;
    }
  }

  /** With the corrected count the one-byte body "A" is accepted under 10. */
  method ReadByteCountedOneByteBody() returns (r: Outcome<int>)
    ensures r == Returned(65)
  {
    var body := new ByteStream([65]);
    var limited := new ContentLengthLimitingStream(body, 10);
    r := limited.ReadByteCounted();
  }
}
