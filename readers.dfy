/** The three ways the scripts read one frame from a socket. They agree on
    the header (a single `recv(4)` that must return four bytes) and differ
    on the payload:
    - strict (epp_cli.py, test_epp.py): accumulate until exactly
      `header - 4` bytes are held, and fail if the stream ends first;
    - lenient (epp_final.py, epp_test_simple.py): accumulate, but on the end
      of the stream return what was gathered so far;
    - single (epp_auto.py, send_to_tunnel.py): one `recv(header - 4)`.
    Each is a method over a Socket proved equal to a function of the
    pending segments, and the functions are characterised by lemmas. */
module Readers {
  import opened Wire
  import opened Net
  import Frame

  /** A read's outcome together with the segments left pending after it. */
  datatype Read<+T> = Read(result: T, left: seq<seq<byte>>)

  /** Taking a chunk off the front of a stream and then k - |chunk| more
      bytes takes k bytes. */
  lemma SliceStep(acc: seq<byte>, c: seq<byte>, f: seq<byte>, g: seq<byte>, k: int)
    requires |c| <= k <= |f| && c == f[..|c|] && g == f[|c|..]
    ensures (acc + c) + g[..k - |c|] == acc + f[..k]
    ensures g[k - |c|..] == f[k..]
  {
    assert c + g[..k - |c|] == f[..k];
  }

  /** The n bytes after a four-byte header, and what follows them. */
  lemma DropHeader(f: seq<byte>, g: seq<byte>, n: int)
    requires 4 <= |f| && g == f[4..] && 0 <= n <= |g|
    ensures [] + g[..n] == f[4..4 + n]
    ensures g[n..] == f[4 + n..]
  {
  }

  // ---------------------------------------------------------------- strict

  /** The strict payload loop: `length` bytes wanted, `acc` held so far. */
  function AccumulateStrict(p: seq<seq<byte>>, length: int, acc: seq<byte>): (r: Read<Result<seq<byte>>>)
    requires Segmented(p)
    ensures Segmented(r.left)
    ensures r.result.Ok? ==> |r.result.value| == if |acc| >= length then |acc| else length
    ensures r.result.Ok? ==> r.result.value[..|acc|] == acc
    decreases length - |acc|
  {
    if |acc| >= length then Read(Ok(acc), p)
    else
      var c := Chunk(p, length - |acc|);
      if c == [] then Read(Err(ClosedByServer), Rest(p, length - |acc|))
      else AccumulateStrict(Rest(p, length - |acc|), length, acc + c)
  }

  /** epp_cli `_read_epp_message` on an open socket. */
  function ReadStrict(p: seq<seq<byte>>): (r: Read<Result<seq<byte>>>)
    requires Segmented(p)
    ensures Segmented(r.left)
    ensures r.result.Ok? ==> |Chunk(p, 4)| == 4
    ensures r.result.Ok? ==>
      |r.result.value| == if Frame.DeclaredPayload(Chunk(p, 4)) <= 0 then 0 else Frame.DeclaredPayload(Chunk(p, 4))
  {
    var h := Chunk(p, 4);
    if |h| != 4 then Read(Err(ShortLength), Rest(p, 4))
    else AccumulateStrict(Rest(p, 4), Frame.DeclaredPayload(h), [])
  }

  method ReadStrictFrame(s: Socket) returns (r: Result<seq<byte>>)
    requires s.Valid()
    modifies s`pending
    ensures s.Valid()
    ensures !s.open ==> r == Err(BadFileDescriptor) && s.pending == old(s.pending)
    ensures s.open ==> Read(r, s.pending) == ReadStrict(old(s.pending))
  {
    var header := s.Recv(4);
    if header.Err? {
      return Err(header.fault);
    }
    if |header.value| != 4 {
      return Err(ShortLength);
    }
    var length := Frame.DeclaredPayload(header.value);
    var xml: seq<byte> := [];
    while |xml| < length
      invariant s.Valid() && s.open
      invariant AccumulateStrict(s.pending, length, xml) == ReadStrict(old(s.pending))
      decreases length - |xml|
    {
      var chunk := s.Recv(length - |xml|);
      if chunk.value == [] {
        return Err(ClosedByServer);
      }
      xml := xml + chunk.value;
    }
    return Ok(xml);
  }

  /** What the strict loop does, in terms of the stream: it returns the
      wanted bytes when the stream holds them all and fails with
      ClosedByServer, having drained the stream, when it does not. */
  lemma {:induction false} AccumulateStrictStream(p: seq<seq<byte>>, length: int, acc: seq<byte>)
    requires Segmented(p)
    ensures var r := AccumulateStrict(p, length, acc);
      var want := length - |acc|;
      && (want <= 0 ==> r == Read(Ok(acc), p))
      && (0 < want <= |Flatten(p)| ==>
            r.result == Ok(acc + Flatten(p)[..want]) && Flatten(r.left) == Flatten(p)[want..])
      && (0 < want && |Flatten(p)| < want ==>
            r.result == Err(ClosedByServer) && Flatten(r.left) == [])
    decreases length - |acc|
  {
    var want := length - |acc|;
    if want > 0 {
      var c := Chunk(p, want);
      var q := Rest(p, want);
      if c != [] {
        AccumulateStrictStream(q, length, acc + c);
        var f := Flatten(p);
        if want <= |f| {
          SliceStep(acc, c, f, Flatten(q), want);
        }
      }
    }
  }

  /** The strict reader fails with ShortLength exactly when the header
      chunk is not four bytes; the payload loop never raises it. */
  lemma StrictShortHeader(p: seq<seq<byte>>)
    requires Segmented(p)
    ensures |Chunk(p, 4)| != 4 <==> ReadStrict(p).result == Err(ShortLength)
  {
    var h := Chunk(p, 4);
    if |h| == 4 {
      AccumulateStrictStream(Rest(p, 4), Frame.DeclaredPayload(h), []);
    }
  }

  /** The strict reader after a whole header, characterised on the stream:
      with `n` the declared payload length, the next n bytes are returned
      when the stream holds them (none when n <= 0), and the read fails with
      ClosedByServer, the stream drained, when it does not, so a truncated
      payload is never returned. */
  lemma StrictWholeHeader(p: seq<seq<byte>>)
    requires Segmented(p)
    requires |Chunk(p, 4)| == 4
    ensures var r := ReadStrict(p); var f := Flatten(p); var n := Frame.DeclaredPayload(f[..4]);
      && (n <= 0 ==> r.result == Ok([]) && Flatten(r.left) == f[4..])
      && (0 < n <= |f| - 4 ==> r.result == Ok(f[4..4 + n]) && Flatten(r.left) == f[4 + n..])
      && (|f| - 4 < n ==> r.result == Err(ClosedByServer) && Flatten(r.left) == [])
  {
    StrictAfterHeader(p);
    var f := Flatten(p);
    var n := Frame.DeclaredPayload(f[..4]);
    if n <= 0 {
      StrictEmptyPayload(p);
    } else if n <= |f| - 4 {
      StrictWholePayload(p);
    } else {
      StrictTruncatedPayload(p);
    }
  }

  lemma StrictEmptyPayload(p: seq<seq<byte>>)
    requires Segmented(p)
    requires |Chunk(p, 4)| == 4 && Frame.DeclaredPayload(Flatten(p)[..4]) <= 0
    ensures ReadStrict(p).result == Ok([]) && Flatten(ReadStrict(p).left) == Flatten(p)[4..]
  {
    StrictAfterHeader(p);
    AccumulateStrictStream(Rest(p, 4), Frame.DeclaredPayload(Flatten(p)[..4]), []);
  }

  lemma StrictWholePayload(p: seq<seq<byte>>)
    requires Segmented(p)
    requires |Chunk(p, 4)| == 4
    requires 0 < Frame.DeclaredPayload(Flatten(p)[..4]) <= |Flatten(p)| - 4
    ensures var f := Flatten(p); var n := Frame.DeclaredPayload(f[..4]);
      ReadStrict(p).result == Ok(f[4..4 + n]) && Flatten(ReadStrict(p).left) == f[4 + n..]
  {
    StrictAfterHeader(p);
    var q := Rest(p, 4);
    var n := Frame.DeclaredPayload(Flatten(p)[..4]);
    AccumulateStrictStream(q, n, []);
    DropHeader(Flatten(p), Flatten(q), n);
  }

  lemma StrictTruncatedPayload(p: seq<seq<byte>>)
    requires Segmented(p)
    requires |Chunk(p, 4)| == 4 && |Flatten(p)| - 4 < Frame.DeclaredPayload(Flatten(p)[..4])
    ensures ReadStrict(p).result == Err(ClosedByServer) && Flatten(ReadStrict(p).left) == []
  {
    StrictAfterHeader(p);
    AccumulateStrictStream(Rest(p, 4), Frame.DeclaredPayload(Flatten(p)[..4]), []);
  }

  /** After a whole header the strict reader is the payload loop on the rest
      of the stream, which is the stream without its first four bytes. */
  lemma StrictAfterHeader(p: seq<seq<byte>>)
    requires Segmented(p)
    requires |Chunk(p, 4)| == 4
    ensures var f := Flatten(p);
      && |f| >= 4 && Chunk(p, 4) == f[..4] && Flatten(Rest(p, 4)) == f[4..]
      && ReadStrict(p) == AccumulateStrict(Rest(p, 4), Frame.DeclaredPayload(f[..4]), [])
  {
  }

  /** Round trip with the writer: when the peer's stream starts with an
      encoded frame and its first segment carries the whole header, the
      strict reader returns the original payload and leaves exactly what
      followed the frame. */
  lemma StrictRoundTrip(p: seq<seq<byte>>, payload: seq<byte>, after: seq<byte>)
    requires Segmented(p) && p != [] && |p[0]| >= 4
    requires |payload| + 4 < U32Bound
    requires Flatten(p) == Frame.Encode(payload).value + after
    ensures ReadStrict(p).result == Ok(payload)
    ensures Flatten(ReadStrict(p).left) == after
  {
    var frame := Frame.Encode(payload).value;
    var f := Flatten(p);
    assert |Chunk(p, 4)| == 4;
    StrictWholeHeader(p);
    assert f[..4] == frame[..4];
    Frame.HeaderAnnouncesPayload(payload);
    if |payload| > 0 {
      assert f[4..4 + |payload|] == payload;
      assert f[4 + |payload|..] == after;
    } else {
      assert f[4..] == after;
    }
  }

  /** The header is read by one recv(4): when the peer's first segment holds
      only two bytes, an intact frame is rejected with ShortLength. */
  lemma StrictSplitHeaderRejected()
    ensures var p := [[0, 0], [0, 5, 65]];
      Segmented(p) && Flatten(p) == Frame.Encode([65]).value
      && ReadStrict(p).result == Err(ShortLength)
  {
    var p: seq<seq<byte>> := [[0, 0], [0, 5, 65]];
    assert Flatten(p) == [0, 0] + ([0, 5, 65] + Flatten([]));
    assert Frame.Encode([65]).value == Pack32(5) + [65];
  }

  // --------------------------------------------------------------- lenient

  /** The lenient payload loop: stop at the end of the stream with what was
      gathered. */
  function AccumulateLenient(p: seq<seq<byte>>, length: int, acc: seq<byte>): (r: Read<seq<byte>>)
    requires Segmented(p)
    ensures Segmented(r.left)
    ensures |acc| <= |r.result| && r.result[..|acc|] == acc
    ensures |acc| < length ==> |r.result| <= length
    decreases length - |acc|
  {
    if |acc| >= length then Read(acc, p)
    else
      var c := Chunk(p, length - |acc|);
      if c == [] then Read(acc, Rest(p, length - |acc|))
      else AccumulateLenient(Rest(p, length - |acc|), length, acc + c)
  }

  /** epp_final `read_message` and epp_test_simple `read_epp_message`:
      None when the header chunk is not four bytes or when the socket raises
      (it is closed), otherwise the payload bytes gathered. */
  function ReadLenient(open: bool, p: seq<seq<byte>>): (r: Read<Option<seq<byte>>>)
    requires Segmented(p)
    ensures Segmented(r.left)
    ensures r.result.Some? ==> open && |Chunk(p, 4)| == 4
    ensures r.result.Some? ==> |r.result.value| <= if Frame.DeclaredPayload(Chunk(p, 4)) <= 0 then 0 else Frame.DeclaredPayload(Chunk(p, 4))
  {
    if !open then Read(None, p)
    else
      var h := Chunk(p, 4);
      if |h| != 4 then Read(None, Rest(p, 4))
      else
        var r := AccumulateLenient(Rest(p, 4), Frame.DeclaredPayload(h), []);
        Read(Some(r.result), r.left)
  }

  method ReadLenientFrame(s: Socket) returns (r: Option<seq<byte>>)
    requires s.Valid()
    modifies s`pending
    ensures s.Valid()
    ensures Read(r, s.pending) == ReadLenient(s.open, old(s.pending))
  {
    var header := s.Recv(4);
    if header.Err? || |header.value| != 4 {
      return None;
    }
    var length := Frame.DeclaredPayload(header.value);
    var xml: seq<byte> := [];
    while |xml| < length
      invariant s.Valid() && s.open
      invariant AccumulateLenient(s.pending, length, xml) == AccumulateLenient(Rest(old(s.pending), 4), length, [])
      decreases length - |xml|
    {
      var chunk := s.Recv(length - |xml|);
      if chunk.value == [] {
        break;
      }
      xml := xml + chunk.value;
    }
    return Some(xml);
  }

  lemma {:induction false} AccumulateLenientStream(p: seq<seq<byte>>, length: int, acc: seq<byte>)
    requires Segmented(p)
    ensures length <= |acc| ==> AccumulateLenient(p, length, acc) == Read(acc, p)
    ensures length > |acc| ==>
      var k := if length - |acc| <= |Flatten(p)| then length - |acc| else |Flatten(p)|;
      var r := AccumulateLenient(p, length, acc);
      r.result == acc + Flatten(p)[..k] && Flatten(r.left) == Flatten(p)[k..]
  {
    if length > |acc| {
      if length - |acc| <= |Flatten(p)| {
        AccumulateLenientWhole(p, length, acc);
      } else {
        AccumulateLenientDrained(p, length, acc);
      }
    }
  }

  /** When the stream holds every wanted byte the loop takes exactly those. */
  lemma {:induction false} AccumulateLenientWhole(p: seq<seq<byte>>, length: int, acc: seq<byte>)
    requires Segmented(p) && 0 < length - |acc| <= |Flatten(p)|
    ensures var r := AccumulateLenient(p, length, acc); var want := length - |acc|;
      r.result == acc + Flatten(p)[..want] && Flatten(r.left) == Flatten(p)[want..]
    decreases length - |acc|
  {
    var want := length - |acc|;
    var c := Chunk(p, want);
    var q := Rest(p, want);
    var f, g := Flatten(p), Flatten(q);
    assert c != [] && c == f[..|c|] && g == f[|c|..];
    assert AccumulateLenient(p, length, acc) == AccumulateLenient(q, length, acc + c);
    if |c| < want {
      AccumulateLenientWhole(q, length, acc + c);
    } else {
      assert AccumulateLenient(q, length, acc + c) == Read(acc + c, q);
    }
    SliceStep(acc, c, f, g, want);
  }

  /** When the stream ends first the loop takes all of it and returns what
      it holds. */
  lemma {:induction false} AccumulateLenientDrained(p: seq<seq<byte>>, length: int, acc: seq<byte>)
    requires Segmented(p) && |Flatten(p)| < length - |acc|
    ensures var r := AccumulateLenient(p, length, acc);
      r.result == acc + Flatten(p) && Flatten(r.left) == []
    decreases length - |acc|
  {
    var want := length - |acc|;
    var c := Chunk(p, want);
    var q := Rest(p, want);
    if c != [] {
      AccumulateLenientDrained(q, length, acc + c);
      assert Flatten(p) == c + Flatten(q);
      AppendAssoc(acc, c, Flatten(q));
    } else {
      assert Flatten(p) == [];
    }
  }

  /** The lenient reader gives None exactly when the header chunk is not
      four bytes. */
  lemma LenientShortHeader(p: seq<seq<byte>>)
    requires Segmented(p)
    ensures |Chunk(p, 4)| != 4 <==> ReadLenient(true, p).result == None
  {
  }

  /** The lenient reader after a whole header, characterised on the stream:
      with n the declared payload length it returns the next min(n,
      available) bytes, so it may return a truncated payload; it never
      returns more than n bytes and returns fewer only when the stream has
      ended. */
  lemma LenientWholeHeader(p: seq<seq<byte>>)
    requires Segmented(p)
    requires |Chunk(p, 4)| == 4
    ensures var r := ReadLenient(true, p); var f := Flatten(p); var n := Frame.DeclaredPayload(f[..4]);
      && (n <= 0 ==> r.result == Some([]) && Flatten(r.left) == f[4..])
      && (0 < n <= |f| - 4 ==> r.result == Some(f[4..4 + n]) && Flatten(r.left) == f[4 + n..])
      && (|f| - 4 < n ==> r.result == Some(f[4..]) && Flatten(r.left) == [])
  {
    LenientAfterHeader(p);
    var f := Flatten(p);
    var n := Frame.DeclaredPayload(f[..4]);
    if n <= 0 {
      LenientEmptyPayload(p);
    } else if n <= |f| - 4 {
      LenientWholePayload(p);
    } else {
      LenientTruncatedPayload(p);
    }
  }

  /** After a whole header the lenient reader is its payload loop on the
      rest of the stream, which is the stream without its first four
      bytes. */
  lemma LenientAfterHeader(p: seq<seq<byte>>)
    requires Segmented(p)
    requires |Chunk(p, 4)| == 4
    ensures var f := Flatten(p); var a := AccumulateLenient(Rest(p, 4), Frame.DeclaredPayload(f[..4]), []);
      && |f| >= 4 && Chunk(p, 4) == f[..4] && Flatten(Rest(p, 4)) == f[4..]
      && ReadLenient(true, p) == Read(Some(a.result), a.left)
  {
  }

  lemma LenientEmptyPayload(p: seq<seq<byte>>)
    requires Segmented(p)
    requires |Chunk(p, 4)| == 4 && Frame.DeclaredPayload(Flatten(p)[..4]) <= 0
    ensures ReadLenient(true, p).result == Some([]) && Flatten(ReadLenient(true, p).left) == Flatten(p)[4..]
  {
    LenientAfterHeader(p);
    AccumulateLenientStream(Rest(p, 4), Frame.DeclaredPayload(Flatten(p)[..4]), []);
  }

  lemma LenientWholePayload(p: seq<seq<byte>>)
    requires Segmented(p)
    requires |Chunk(p, 4)| == 4
    requires 0 < Frame.DeclaredPayload(Flatten(p)[..4]) <= |Flatten(p)| - 4
    ensures var f := Flatten(p); var n := Frame.DeclaredPayload(f[..4]);
      ReadLenient(true, p).result == Some(f[4..4 + n]) && Flatten(ReadLenient(true, p).left) == f[4 + n..]
  {
    LenientAfterHeader(p);
    var q := Rest(p, 4);
    var n := Frame.DeclaredPayload(Flatten(p)[..4]);
    AccumulateLenientWhole(q, n, []);
    DropHeader(Flatten(p), Flatten(q), n);
  }

  lemma LenientTruncatedPayload(p: seq<seq<byte>>)
    requires Segmented(p)
    requires |Chunk(p, 4)| == 4 && |Flatten(p)| - 4 < Frame.DeclaredPayload(Flatten(p)[..4])
    ensures ReadLenient(true, p).result == Some(Flatten(p)[4..]) && Flatten(ReadLenient(true, p).left) == []
  {
    LenientAfterHeader(p);
    var f := Flatten(p);
    var q := Rest(p, 4);
    AccumulateLenientDrained(q, Frame.DeclaredPayload(f[..4]), []);
    assert [] + Flatten(q) == f[4..];
  }


  /** Round trip with the writer, as for the strict reader. */
  lemma LenientRoundTrip(p: seq<seq<byte>>, payload: seq<byte>, after: seq<byte>)
    requires Segmented(p) && p != [] && |p[0]| >= 4
    requires |payload| + 4 < U32Bound
    requires Flatten(p) == Frame.Encode(payload).value + after
    ensures ReadLenient(true, p).result == Some(payload)
    ensures Flatten(ReadLenient(true, p).left) == after
  {
    var frame := Frame.Encode(payload).value;
    var f := Flatten(p);
    assert |Chunk(p, 4)| == 4;
    LenientWholeHeader(p);
    assert f[..4] == frame[..4];
    Frame.HeaderAnnouncesPayload(payload);
    if |payload| > 0 {
      assert f[4..4 + |payload|] == payload;
      assert f[4 + |payload|..] == after;
    } else {
      assert f[4..] == after;
    }
  }

  /** Where the two accumulating readers part: on a stream that ends inside
      the payload the strict reader fails and the lenient one returns the
      bytes it got. */
  lemma TruncatedStreamStrictVersusLenient()
    ensures var p := [[0, 0, 0, 7, 65]];
      Segmented(p)
      && ReadStrict(p).result == Err(ClosedByServer)
      && ReadLenient(true, p).result == Some([65])
  {
    var p: seq<seq<byte>> := [[0, 0, 0, 7, 65]];
    assert Chunk(p, 4) == [0, 0, 0, 7];
    assert Rest(p, 4) == [[65]];
    assert Chunk([[65]], 3) == [65];
    assert Rest([[65]], 3) == [];
    assert AccumulateStrict([], 3, [65]) == Read(Err(ClosedByServer), []);
    assert AccumulateLenient([], 3, [65]) == Read([65], []);
    assert [] + [65] == [65];
    assert AccumulateLenient([[65]], 3, []) == AccumulateLenient([], 3, [65]);
    assert Frame.DeclaredPayload([0, 0, 0, 7]) == 3;
    assert ReadLenient(true, p) == Read(Some([65]), []);
  }

  // ---------------------------------------------------------------- single

  /** epp_auto `send_epp_command` and send_to_tunnel `send_epp_to_tunnel`
      after the write: a header chunk of other than four bytes gives None;
      otherwise a single `recv(header - 4)`, which raises ValueError for a
      declared total below four. */
  function ReadSingle(p: seq<seq<byte>>): (r: Read<Result<Option<seq<byte>>>>)
    requires Segmented(p)
    ensures Segmented(r.left)
  {
    var h := Chunk(p, 4);
    var q := Rest(p, 4);
    if |h| != 4 then Read(Ok(None), q)
    else
      var n := Frame.DeclaredPayload(h);
      if n < 0 then Read(Err(NegativeRecvSize), q)
      else Read(Ok(Some(Chunk(q, n))), Rest(q, n))
  }

  method ReadSingleFrame(s: Socket) returns (r: Result<Option<seq<byte>>>)
    requires s.Valid()
    modifies s`pending
    ensures s.Valid()
    ensures !s.open ==> r == Err(BadFileDescriptor) && s.pending == old(s.pending)
    ensures s.open ==> Read(r, s.pending) == ReadSingle(old(s.pending))
  {
    var header := s.Recv(4);
    if header.Err? {
      return Err(header.fault);
    }
    if |header.value| != 4 {
      return Ok(None);
    }
    var body := s.Recv(Frame.DeclaredPayload(header.value));
    if body.Err? {
      return Err(body.fault);
    }
    return Ok(Some(body.value));
  }

  /** The single-recv reader never returns more than the declared payload
      and what it returns is the next bytes of the stream; when the whole
      frame sits in the peer's first segment it returns the payload. */
  lemma SingleReadOnStream(p: seq<seq<byte>>)
    requires Segmented(p)
    ensures var r := ReadSingle(p);
      r.result.Ok? && r.result.value.Some? ==>
        var f := Flatten(p);
        var x := r.result.value.value;
        && |Chunk(p, 4)| == 4
        && |x| <= Frame.DeclaredPayload(f[..4])
        && x == f[4..4 + |x|]
        && Flatten(r.left) == f[4 + |x|..]
  {
    var h := Chunk(p, 4);
    var q := Rest(p, 4);
    var f := Flatten(p);
    if |h| == 4 && Frame.DeclaredPayload(h) >= 0 {
      var x := Chunk(q, Frame.DeclaredPayload(h));
      assert Flatten(q) == f[4..];
      assert x == f[4..][..|x|] == f[4..4 + |x|];
      assert f[4..][|x|..] == f[4 + |x|..];
    }
  }

  lemma SingleRoundTrip(p: seq<seq<byte>>, payload: seq<byte>)
    requires Segmented(p) && p != [] && |payload| + 4 < U32Bound
    requires p[0] == Frame.Encode(payload).value
    ensures ReadSingle(p).result == Ok(Some(payload))
    ensures ReadSingle(p).left == p[1..]
  {
    var frame := p[0];
    Frame.HeaderAnnouncesPayload(payload);
    assert Chunk(p, 4) == frame[..4];
    var q := Rest(p, 4);
    if |payload| > 0 {
      assert q == [frame[4..]] + p[1..];
      assert Chunk(q, |payload|) == payload;
    } else {
      assert q == p[1..];
    }
  }

  /** With one recv for the payload, a payload split across two segments is
      returned truncated. */
  lemma SingleSplitPayloadTruncated()
    ensures var p := [[0, 0, 0, 6, 65], [66]];
      Segmented(p) && Flatten(p) == Frame.Encode([65, 66]).value
      && ReadSingle(p).result == Ok(Some([65]))
  {
    var p: seq<seq<byte>> := [[0, 0, 0, 6, 65], [66]];
    assert Flatten(p) == [0, 0, 0, 6, 65] + ([66] + Flatten([]));
    assert Frame.Encode([65, 66]).value == Pack32(6) + [65, 66];
    assert Rest(p, 4) == [[65], [66]];
  }
}
