/**
 * Bytes, frames and the in-memory socket that replaces a TCP connection.
 *
 * A connection is modelled as frames: one frame per `send` of the peer.
 * `recv(n)` hands back at most one frame (at most `n` bytes of it); whatever
 * of that frame is left over stays at the head of the stream, and a closed,
 * drained connection answers with the empty byte string.
 */
module Wire {

  newtype byte = x: int | 0 <= x < 0x100

  type Bytes = seq<byte>

  /** utils.py: CHUNK_SIZE, the block and chunk size of both peers. */
  const CHUNK_SIZE: nat := 1024

  /** The buffer size both peers pass to `recv` for text frames. */
  const RECV_SIZE: nat := 1024

  /** The server's acknowledgement of the metadata frame. */
  const ACK: string := "ACK"

  /** The byte stream carried by a sequence of frames, in order. */
  function Flatten(frames: seq<Bytes>): (r: Bytes)
  {
    if frames == [] then [] else frames[0] + Flatten(frames[1..])
  }

  lemma {:induction false} FlattenAppend(a: seq<Bytes>, b: seq<Bytes>)
    ensures Flatten(a + b) == Flatten(a) + Flatten(b)
  {
    if a == [] {
      assert a + b == b;
    } else {
      assert (a + b)[1..] == a[1..] + b;
      FlattenAppend(a[1..], b);
    }
  }

  /** No frame is empty: what a sequence of `send` calls can put on the wire. */
  predicate NonEmptyFrames(frames: seq<Bytes>)
  {
    forall i :: 0 <= i < |frames| ==> frames[i] != []
  }

  /** A well-founded measure on pending frames: bytes plus frame count. */
  function Measure(frames: seq<Bytes>): (r: nat)
  {
    |Flatten(frames)| + |frames|
  }

  /**
   * `recv()` converts its size argument to a C `Py_ssize_t`; on a 64-bit
   * platform a size outside `SSIZE_MIN..SSIZE_MAX` raises OverflowError.
   */
  const SSIZE_MIN: int := -0x8000_0000_0000_0000
  const SSIZE_MAX: int := 0x7FFF_FFFF_FFFF_FFFF

  /**
   * One `recv(bufsize)`: the (at most `bufsize`-byte) data handed back and
   * the frames still pending afterwards.
   */
  function Receive(inbox: seq<Bytes>, bufsize: nat): (r: (Bytes, seq<Bytes>))
    ensures |r.0| <= bufsize
    ensures r.0 + Flatten(r.1) == Flatten(inbox)
    ensures inbox != [] && bufsize > 0 ==> Measure(r.1) < Measure(inbox)
    ensures Measure(r.1) <= Measure(inbox)
    ensures inbox == [] ==> r == ([], [])
    ensures inbox != [] && 0 < bufsize && |inbox[0]| <= bufsize ==> r == (inbox[0], inbox[1..])
  {
    if inbox == [] || bufsize == 0 then ([], inbox)
    else if |inbox[0]| <= bufsize then (inbox[0], inbox[1..])
    else
      var head := inbox[0];
      assert head == head[..bufsize] + head[bufsize..];
      FlattenAppend([head[bufsize..]], inbox[1..]);
      (head[..bufsize], [head[bufsize..]] + inbox[1..])
  }

  /** One `send(data)`: an empty send puts nothing on the wire. */
  function Transmit(outbox: seq<Bytes>, data: Bytes): (r: seq<Bytes>)
  {
    if data == [] then outbox else outbox + [data]
  }

  /** Sending two non-empty frames appends both, in order. */
  lemma TransmitTwo(outbox: seq<Bytes>, a: Bytes, b: Bytes)
    requires a != [] && b != []
    ensures Transmit(Transmit(outbox, a), b) == outbox + [a, b]
  {
    assert outbox + [a] + [b] == outbox + [a, b];
  }

  lemma TransmitAppend(a: seq<Bytes>, b: seq<Bytes>, data: Bytes)
    ensures Transmit(a + b, data) == a + Transmit(b, data)
  {
  }

  /** Sending extends the stream by exactly the data sent, empty or not. */
  lemma TransmitFlatten(outbox: seq<Bytes>, data: Bytes)
    ensures Flatten(Transmit(outbox, data)) == Flatten(outbox) + data
  {
    FlattenAppend(outbox, [data]);
    assert Flatten([data]) == data + Flatten([]);
  }

  /** One end of a connection. */
  class Socket {
    /** Frames the peer has sent and this end has not read yet. */
    var inbox: seq<Bytes>
    /** Frames this end has sent, oldest first. */
    var outbox: seq<Bytes>

    constructor (incoming: seq<Bytes>)
      ensures inbox == incoming && outbox == []
    {
      inbox := incoming;
      outbox := [];
    }

    method Recv(bufsize: nat) returns (data: Bytes)
      modifies this
      ensures (data, inbox) == Receive(old(inbox), bufsize)
      ensures outbox == old(outbox)
    {
      var r := Receive(inbox, bufsize);
      data, inbox := r.0, r.1;
    }

    method Send(data: Bytes)
      modifies this
      ensures outbox == Transmit(old(outbox), data)
      ensures inbox == old(inbox)
    {
      if data != [] {
        outbox := outbox + [data];
      }
    }
  }
}
