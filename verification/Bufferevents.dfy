/** A libevent bufferevent, as far as the relay and the cipher use it: two buffers, callbacks with
    a context, and whether it has been freed.  Nothing may be done with a freed one. */
module Bufferevents {
  import opened Octets

  datatype ReadCallback = NoRead | LocalRead | RemoteRead

  datatype WriteCallback = NoWrite | CloseOnFinishedWrite

  datatype EventCallback = NoEvent | LocalEvent | RemoteEvent

  class Bufferevent {
    var live: bool
    /** Whether reading is enabled. */
    var reading: bool
    var input: seq<byte>
    var output: seq<byte>
    var onRead: ReadCallback
    var onWrite: WriteCallback
    var onEvent: EventCallback
    var ctx: Bufferevent?

    /** Everything the socket has delivered, and everything it has taken. */
    ghost var received: seq<byte>
    ghost var sent: seq<byte>

    constructor ()
      ensures live && !reading && input == [] && output == [] && received == [] && sent == []
      ensures onRead == NoRead && onWrite == NoWrite && onEvent == NoEvent && ctx == null
    {
      live, reading := true, false;
      input, output, received, sent := [], [], [], [];
      onRead, onWrite, onEvent, ctx := NoRead, NoWrite, NoEvent, null;
    }

    /** Moves up to `size` bytes of input into `data`. */
    method Read(data: array<byte>, size: nat) returns (n: nat)
      requires live && size <= data.Length
      modifies this`input, data
      ensures n == if |old(input)| < size then |old(input)| else size
      ensures forall k :: 0 <= k < n ==> data[k] == old(input)[k]
      ensures input == old(input)[n..]
    {
      n := if |input| < size then |input| else size;
      for i := 0 to n
        invariant input == old(input)
        invariant forall k :: 0 <= k < i ==> data[k] == input[k]
      {
        data[i] := input[i];
      }
      input := input[n..];
    }

    method Write(data: seq<byte>)
      requires live
      modifies this`output
      ensures output == old(output) + data
    {
      output := output + data;
    }

    method SetCallbacks(read: ReadCallback, write: WriteCallback, event: EventCallback, ctx: Bufferevent?)
      requires live
      modifies this`onRead, this`onWrite, this`onEvent, this`ctx
      ensures onRead == read && onWrite == write && onEvent == event && this.ctx == ctx
    {
      onRead, onWrite, onEvent, this.ctx := read, write, event, ctx;
    }

    method EnableReading()
      requires live
      modifies this`reading
      ensures reading
    {
      reading := true;
    }

    method DisableReading()
      requires live
      modifies this`reading
      ensures !reading
    {
      reading := false;
    }

    method Free()
      requires live
      modifies this`live
      ensures !live
    {
      live := false;
    }
  }
}
