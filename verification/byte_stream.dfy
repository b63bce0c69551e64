/** The stream a limiting wrapper decorates (the request body or the response
    body of an exchange). It is seen only through what the wrappers do with
    it: the bytes still to be read, the writes issued to it in order, and the
    number of flushes. */
module Streams {
  import opened Http

  class ByteStream {
    /** Bytes a reader will still receive, in order. */
    var unread: seq<byte>
    /** Every write issued to the stream, one entry per call, in order. */
    var written: seq<seq<byte>>
    var flushes: nat

    constructor (input: seq<byte>)
      ensures unread == input && written == [] && flushes == 0
    {
      unread := input;
      written := [];
      flushes := 0;
    }

    /** Reads up to `count` bytes; at the end of the stream it returns none. */
    method Read(count: nat) returns (data: seq<byte>)
      modifies this
      ensures |data| == if count <= |old(unread)| then count else |old(unread)|
      ensures old(unread) == data + unread
      ensures written == old(written) && flushes == old(flushes)
    {
      var n := if count <= |unread| then count else |unread|;
      data := unread[..n];
      unread := unread[n..];
    }

    /** The next byte as a value in 0..255, or -1 at the end of the stream. */
    method ReadByte() returns (value: int)
      modifies this
      ensures old(unread) == [] ==> value == -1 && unread == []
      ensures old(unread) != [] ==> value == old(unread)[0] as int && unread == old(unread)[1..]
      ensures written == old(written) && flushes == old(flushes)
    {
      if unread == [] {
        value := -1;
      } else {
        value := unread[0] as int;
        unread := unread[1..];
      }
    }

    method Write(data: seq<byte>)
      modifies this
      ensures written == old(written) + [data]
      ensures unread == old(unread) && flushes == old(flushes)
    {
      written := written + [data];
    }

    method Flush()
      modifies this
      ensures flushes == old(flushes) + 1
      ensures unread == old(unread) && written == old(written)
    {
      flushes := flushes + 1;
    }

    /** Copies everything still unread to `destination` in one write. */
    method CopyTo(destination: ByteStream)
      requires destination != this
      modifies this, destination
      ensures destination.written == old(destination.written) + [old(unread)]
      ensures unread == [] && written == old(written) && flushes == old(flushes)
      ensures destination.unread == old(destination.unread)
      ensures destination.flushes == old(destination.flushes)
    {
      destination.written := destination.written + [unread];
      unread := [];
    }
  }
}
