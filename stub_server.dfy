/** BNDDEV-EPP/test_epp_server.py: the test server's handling of one client.
    It writes its greeting frame, then answers every command frame it reads
    with the same fixed result-1000 frame until the stream ends or a read
    fails, and closes the client socket in every case. */
module StubServer {
  import opened Wire
  import opened Net
  import Frame
  import Transport

  /** The greeting `create_epp_greeting` encodes. */
  const GreetingText := "<?xml version=\"1.0\" encoding=\"UTF-8\"?>\n"
    + "<epp xmlns=\"urn:ietf:params:xml:ns:epp-1.0\">\n<greeting>\n<svID>TEST EPP Server</svID>\n"
    + "<svDate>2025-10-09T09:30:00.000Z</svDate>\n<svcMenu>\n<version>1.0</version>\n<lang>en</lang>\n"
    + "<objURI>urn:ietf:params:xml:ns:domain-1.0</objURI>\n<objURI>urn:ietf:params:xml:ns:contact-1.0</objURI>\n"
    + "<objURI>urn:ietf:params:xml:ns:host-1.0</objURI>\n</svcMenu>\n<dcp>\n<access><all/></access>\n"
    + "<statement>\n<purpose><admin/><prov/></purpose>\n<recipient><ours/><public/></recipient>\n"
    + "<retention><stated/></retention>\n</statement>\n</dcp>\n</greeting>\n</epp>"

  /** The reply to every command. */
  const ResponseText := "<?xml version=\"1.0\" encoding=\"UTF-8\"?>\n"
    + "<epp xmlns=\"urn:ietf:params:xml:ns:epp-1.0\">\n<response>\n<result code=\"1000\">\n"
    + "<msg>Command completed successfully</msg>\n</result>\n<trID>\n<clTRID>TEST</clTRID>\n"
    + "<svTRID>TEST-RESPONSE</svTRID>\n</trID>\n</response>\n</epp>"

  /** `create_epp_greeting()` for a greeting `text`: the frame whose header
      is the big-endian total `len + 4` and whose body is the text's bytes;
      None when struct.pack would raise. */
  function GreetingFrame(text: string): (f: Option<seq<byte>>)
    ensures f.Some? <==> |Utf8(text)| + 4 < U32Bound
    ensures f.Some? ==> |f.value| == |Utf8(text)| + 4 && Unpack32(f.value[..4]) == |f.value| && f.value[4..] == Utf8(text)
  {
    var m := Transport.Message(text);
    if m.Some? then
      assert Frame.DeclaredPayload(m.value[..4]) == Unpack32(m.value[..4]) - 4;
      m
    else m
  }

  /** Why the command loop stopped. */
  datatype Stop =
    | GreetingTooLong   // struct.pack raised before the loop
    | StreamEnded       // `recv(4)` returned nothing
    | ShortHeader       // struct.unpack raised on one to three bytes
    | NegativeLength    // `recv` raised on a declared total below four
    | ReplyTooLong      // struct.pack raised on the reply

  /** What the loop wrote, the segments it left, why it stopped and how
      many commands it answered. */
  datatype Served = Served(out: seq<byte>, left: seq<seq<byte>>, stop: Stop, commands: nat)

  /** `k` copies of the reply frame in a row. */
  function Repeat(frame: seq<byte>, k: nat): (r: seq<byte>)
    ensures |r| == k * |frame|
  {
    if k == 0 then [] else frame + Repeat(frame, k - 1)
  }

  /** A header read that returns something consumes it. */
  lemma ChunkShrinks(p: seq<seq<byte>>, n: nat)
    requires Segmented(p) && Chunk(p, n) != []
    ensures |Flatten(Rest(p, n))| < |Flatten(p)|
  {
  }

  /** The `while True` loop of `handle_client` on `p` pending: read a
      header, stop on nothing; unpack it, read the command with one `recv`,
      and write the reply frame. */
  function ServeLoop(p: seq<seq<byte>>, response: string): (r: Served)
    requires Segmented(p)
    ensures Segmented(r.left)
    decreases |Flatten(p)|
  {
    var h := Chunk(p, 4);
    var q := Rest(p, 4);
    if h == [] then Served([], q, StreamEnded, 0)
    else if |h| != 4 then Served([], q, ShortHeader, 0)
    else
      var n := Frame.DeclaredPayload(h);
      if n < 0 then Served([], q, NegativeLength, 0)
      else
        var q2 := Rest(q, n);
        var reply := Transport.Message(response);
        if reply.None? then Served([], q2, ReplyTooLong, 0)
        else
          ChunkShrinks(p, 4);
          assert |Flatten(q2)| <= |Flatten(q)|;
          var rest := ServeLoop(q2, response);
          Served(reply.value + rest.out, rest.left, rest.stop, rest.commands + 1)
  }

  /** `handle_client` on a client socket with `p` pending: the greeting
      frame, then the command loop. */
  function Handle(greeting: string, response: string, p: seq<seq<byte>>): (r: Served)
    requires Segmented(p)
    ensures Segmented(r.left)
  {
    var g := GreetingFrame(greeting);
    if g.None? then Served([], p, GreetingTooLong, 0)
    else
      var s := ServeLoop(p, response);
      Served(g.value + s.out, s.left, s.stop, s.commands)
  }

  /** Every command answered gets exactly one copy of the reply frame, and
      nothing else is written; each answer consumed a whole four-byte
      header, so no more commands are answered than the stream holds
      headers for. */
  lemma {:induction false} OneReplyPerCommand(p: seq<seq<byte>>, response: string)
    requires Segmented(p)
    ensures var r := ServeLoop(p, response);
      && (r.commands > 0 ==> Transport.Message(response).Some?)
      && (Transport.Message(response).Some? ==> r.out == Repeat(Transport.Message(response).value, r.commands))
      && (Transport.Message(response).None? ==> r.out == [])
      && 4 * r.commands <= |Flatten(p)|
    decreases |Flatten(p)|
  {
    var h := Chunk(p, 4);
    var q := Rest(p, 4);
    if |h| == 4 && Frame.DeclaredPayload(h) >= 0 && Transport.Message(response).Some? {
      var q2 := Rest(q, Frame.DeclaredPayload(h));
      assert |Flatten(q2)| <= |Flatten(q)| == |Flatten(p)| - 4;
      OneReplyPerCommand(q2, response);
    }
  }

  /** The greeting is written before any command is read: whatever the
      client sends, the first bytes written are the greeting frame. */
  lemma GreetingFirst(greeting: string, response: string, p: seq<seq<byte>>)
    requires Segmented(p) && |Utf8(greeting)| + 4 < U32Bound
    ensures GreetingFrame(greeting).value <= Handle(greeting, response, p).out
  {
    PrefixOfAppend(GreetingFrame(greeting).value, ServeLoop(p, response).out);
  }

  /** The command frames a well-behaved client sends, each in its own
      segment. */
  function Frames(commands: seq<seq<byte>>): (p: seq<seq<byte>>)
    requires forall i :: 0 <= i < |commands| ==> |commands[i]| + 4 < U32Bound
    ensures |p| == |commands| && Segmented(p)
  {
    if commands == [] then []
    else [Frame.Encode(commands[0]).value] + Frames(commands[1..])
  }

  /** A client that sends whole command frames and then ends its stream
      gets one reply per command, and the loop stops at the end of the
      stream with everything read. */
  lemma {:induction false} AnswersEveryFrame(commands: seq<seq<byte>>, response: string)
    requires forall i :: 0 <= i < |commands| ==> |commands[i]| + 4 < U32Bound
    requires Transport.Message(response).Some?
    ensures var r := ServeLoop(Frames(commands), response);
      r.commands == |commands| && r.stop == StreamEnded && r.left == []
  {
    var p := Frames(commands);
    if commands != [] {
      var frame := p[0];
      Frame.HeaderAnnouncesPayload(commands[0]);
      assert Chunk(p, 4) == frame[..4];
      var q := Rest(p, 4);
      var n := |commands[0]|;
      if n > 0 {
        assert q == [frame[4..]] + p[1..];
        assert Rest(q, n) == p[1..];
      } else {
        assert q == p[1..];
      }
      assert p[1..] == Frames(commands[1..]);
      AnswersEveryFrame(commands[1..], response);
    }
  }

  /** `handle_client`: the socket is closed in every case. */
  method HandleClient(s: Socket, greeting: string, response: string) returns (stop: Stop)
    requires s.Valid() && s.open
    modifies s
    ensures s.Valid() && !s.open
    ensures var r := Handle(greeting, response, old(s.pending));
      stop == r.stop && s.sent == old(s.sent) + r.out && s.pending == r.left
  {
    var g := GreetingFrame(greeting);
    if g.None? {
      s.Close();
      return GreetingTooLong;
    }
    var _ := s.Send(g.value);
    ghost var sent1 := s.sent;
    ghost var whole := ServeLoop(s.pending, response);
    while true
      invariant s.Valid() && s.open
      invariant var rest := ServeLoop(s.pending, response);
        && s.sent + rest.out == sent1 + whole.out
        && rest.left == whole.left && rest.stop == whole.stop
      decreases |Flatten(s.pending)|
    {
      ghost var before := s.pending;
      var header := s.Recv(4);
      if header.value == [] {
        stop := StreamEnded;
        break;
      }
      if |header.value| != 4 {
        stop := ShortHeader;
        break;
      }
      var command := s.Recv(Frame.DeclaredPayload(header.value));
      if command.Err? {
        stop := NegativeLength;
        break;
      }
      var reply := Transport.Message(response);
      if reply.None? {
        stop := ReplyTooLong;
        break;
      }
      ghost var rest := ServeLoop(s.pending, response);
      ChunkShrinks(before, 4);
      var _ := s.Send(reply.value);
      AppendAssoc(s.sent[..|s.sent| - |reply.value|], reply.value, rest.out);
    }
    AppendAssoc(old(s.sent), g.value, whole.out);
    s.Close();
  }

  /** `handle_client` as the accept loop calls it, with the script's own
      greeting and reply. */
  method Serve(s: Socket) returns (stop: Stop)
    requires s.Valid() && s.open
    modifies s
    ensures s.Valid() && !s.open
    ensures var r := Handle(GreetingText, ResponseText, old(s.pending));
      stop == r.stop && s.sent == old(s.sent) + r.out && s.pending == r.left
  {
    stop := HandleClient(s, GreetingText, ResponseText);
  }
}
