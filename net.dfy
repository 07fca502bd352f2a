/** The socket the scripts talk through. The peer's bytes arrive as a
    sequence of segments (TCP segments or TLS records); `recv(n)` returns at
    most `n` bytes of the first pending segment and returns nothing only when
    `n` is 0 or at the end of the stream. Every way Python's `recv` may split a stream is
    the behaviour of some segmentation, so a property proved for all
    segmentations holds for every split the network may produce. */
module Net {
  import opened Wire

  /** The exceptions the scripts' socket and framing code can raise. */
  datatype Fault =
    | BadFileDescriptor   // OSError: send or recv on a closed socket
    | NegativeRecvSize    // ValueError: recv given a negative buffer size
    | ConnectFailed       // certificate loading, TCP connect or TLS handshake failed
    | NoSocket            // AttributeError: the client holds no socket yet
    | StructError         // struct.pack out of range, or struct.unpack on other than 4 bytes
    | ShortLength         // epp_cli: the 4-byte length could not be read
    | ClosedByServer      // epp_cli: the server closed before the payload was complete
    | NotAString          // TypeError: a substring test on None

  datatype Result<+T> = Ok(value: T) | Err(fault: Fault)

  /** Segments as the network delivers them: never empty. */
  predicate Segmented(p: seq<seq<byte>>)
  {
    forall i :: 0 <= i < |p| ==> p[i] != []
  }

  /** The byte stream the segments carry. */
  function Flatten(p: seq<seq<byte>>): seq<byte>
  {
    if p == [] then [] else p[0] + Flatten(p[1..])
  }

  lemma FlattenCons(x: seq<byte>, q: seq<seq<byte>>)
    ensures Flatten([x] + q) == x + Flatten(q)
  {
    assert ([x] + q)[1..] == q;
  }

  /** The stream of two runs of segments is the one stream then the other. */
  lemma {:induction false} FlattenAppend(a: seq<seq<byte>>, b: seq<seq<byte>>)
    ensures Flatten(a + b) == Flatten(a) + Flatten(b)
  {
    if a == [] {
      assert a + b == b;
    } else {
      assert (a + b)[1..] == a[1..] + b;
      FlattenAppend(a[1..], b);
    }
  }

  /** What `recv(n)` returns for n >= 0: up to n bytes of the first segment,
      and nothing only when n is 0 or the stream has ended. */
  function Chunk(p: seq<seq<byte>>, n: nat): (c: seq<byte>)
    requires Segmented(p)
    ensures |c| <= n && |c| <= |Flatten(p)|
    ensures c == Flatten(p)[..|c|]
    ensures c == [] <==> (n == 0 || p == [])
  {
    if p == [] || n == 0 then []
    else if n < |p[0]| then p[0][..n]
    else p[0]
  }

  /** What is still pending after `recv(n)`: the stream minus the chunk. */
  function Rest(p: seq<seq<byte>>, n: nat): (q: seq<seq<byte>>)
    requires Segmented(p)
    ensures Segmented(q)
    ensures Flatten(q) == Flatten(p)[|Chunk(p, n)|..]
  {
    if p == [] || n == 0 then p
    else if n < |p[0]| then
      FlattenCons(p[0][n..], p[1..]);
      [p[0][n..]] + p[1..]
    else p[1..]
  }

  /** A recv that may ask for more than one segment holds returns the whole
      first segment; asking for at least as much as the first segment holds
      gives all of it. */
  lemma ChunkWholeSegment(p: seq<seq<byte>>, n: nat)
    requires Segmented(p) && p != [] && n >= |p[0]|
    ensures Chunk(p, n) == p[0] && Rest(p, n) == p[1..]
  {
  }

  /** A recv of at most the first segment's length takes exactly n bytes. */
  lemma ChunkWithinSegment(p: seq<seq<byte>>, n: nat)
    requires Segmented(p) && p != [] && n <= |p[0]|
    ensures |Chunk(p, n)| == n
  {
  }

  class Socket {
    /** Segments the peer has sent and this end has not read yet; the
        stream ends after the last. */
    var pending: seq<seq<byte>>
    /** Everything written to the peer so far. */
    var sent: seq<byte>
    /** False once `close()` was called. */
    var open: bool

    ghost predicate Valid()
      reads this
    {
      Segmented(pending)
    }

    constructor (incoming: seq<seq<byte>>)
      requires Segmented(incoming)
      ensures Valid() && pending == incoming && sent == [] && open
    {
      pending := incoming;
      sent := [];
      open := true;
    }

    /** `recv(n)`: a closed socket raises OSError, a negative size raises
        ValueError, otherwise the next chunk of the stream is consumed. */
    method Recv(n: int) returns (r: Result<seq<byte>>)
      requires Valid()
      modifies this`pending
      ensures Valid()
      ensures !open ==> r == Err(BadFileDescriptor) && pending == old(pending)
      ensures open && n < 0 ==> r == Err(NegativeRecvSize) && pending == old(pending)
      ensures open && n >= 0 ==> r == Ok(Chunk(old(pending), n)) && pending == Rest(old(pending), n)
    {
      if !open {
        r := Err(BadFileDescriptor);
      } else if n < 0 {
        r := Err(NegativeRecvSize);
      } else {
        r := Ok(Chunk(pending, n));
        pending := Rest(pending, n);
      }
    }

    /** `send(data)`: a closed socket raises OSError, otherwise the data is
        written after everything sent before. */
    method Send(data: seq<byte>) returns (r: Result<nat>)
      requires Valid()
      modifies this`sent
      ensures Valid()
      ensures !open ==> r == Err(BadFileDescriptor) && sent == old(sent)
      ensures open ==> r == Ok(|data|) && sent == old(sent) + data
    {
      if !open {
        r := Err(BadFileDescriptor);
      } else {
        sent := sent + data;
        r := Ok(|data|);
      }
    }

    /** `close()`: closing twice is harmless. */
    method Close()
      requires Valid()
      modifies this`open
      ensures Valid() && !open
    {
      open := false;
    }
  }
}
