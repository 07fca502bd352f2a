/** BNDDEV-EPP/epp_test_simple.py: read the greeting, send one login when a
    greeting came, read its reply leniently and report whether it contains
    "1000"; the socket is closed whatever happened after the connect. */
module EppTestSimple {
  import opened Wire
  import opened Net
  import opened Readers
  import opened Commands
  import Transport

  /** The login command, cut where the client identifier and the password
      go. */
  datatype SimpleXml = SimpleXml(loginHead: string, loginPw: string, loginTail: string)

  const Templates := SimpleXml(
    Prolog + "<command>\n<login>\n<clID>",
    "</clID>\n<pw>",
    "</pw>\n<options>\n<version>1.0</version>\n<lang>en</lang>\n</options>\n<svcs>\n"
    + "<objURI>urn:ietf:params:xml:ns:domain-1.0</objURI>\n"
    + "<objURI>urn:ietf:params:xml:ns:contact-1.0</objURI>\n"
    + "<objURI>urn:ietf:params:xml:ns:host-1.0</objURI>\n</svcs>\n</login>\n"
    + "<clTRID>CLI-TEST-LOGIN</clTRID>\n</command>\n</epp>")

  function LoginXml(x: SimpleXml, c: Credentials): string
  {
    x.loginHead + c.clID + x.loginPw + c.pw + x.loginTail
  }

  /** `read_epp_message` on an open socket: None for a header chunk of
      other than four bytes, otherwise the payload gathered until the
      declared length or the end of the stream. */
  method ReadMessage(s: Socket) returns (r: Option<seq<byte>>)
    requires s.Valid() && s.open
    modifies s`pending
    ensures s.Valid()
    ensures Read(r, s.pending) == ReadLenient(true, old(s.pending))
  {
    r := ReadLenientFrame(s);
  }

  /** `send_epp_message`: True once the frame is written, False when
      struct.pack or the send raised, and then nothing is written. */
  method SendMessage(s: Socket, text: string) returns (ok: bool)
    requires s.Valid()
    modifies s`sent
    ensures s.Valid()
    ensures ok <==> Transport.Message(text).Some? && s.open
    ensures s.sent == old(s.sent) + (if ok then Transport.Message(text).value else [])
  {
    var written := Transport.WriteFrame(s, text);
    ok := written.Ok?;
  }

  /** What `main` reports. */
  datatype Report = NoConnection | NoGreeting | NotSent | NoReply | LoginAccepted | LoginRejected

  datatype SimpleOutcome = SimpleOutcome(report: Report, out: seq<byte>, left: seq<seq<byte>>)

  /** `main` after the connect, on an open socket with `p` pending: the
      login is sent only after a non-empty greeting. */
  function SimpleRun(x: SimpleXml, c: Credentials, p: seq<seq<byte>>): (r: SimpleOutcome)
    requires Segmented(p)
    ensures Segmented(r.left)
  {
    var g := ReadLenient(true, p);
    if g.result.None? || g.result.value == [] then SimpleOutcome(NoGreeting, [], g.left)
    else LoginTest(x, c, g.left)
  }

  /** The login test after a non-empty greeting: send the login and, when
      its reply is non-empty, decide the verdict by a search for "1000". */
  function LoginTest(x: SimpleXml, c: Credentials, p: seq<seq<byte>>): (r: SimpleOutcome)
    requires Segmented(p)
    ensures Segmented(r.left)
  {
    var m := Transport.Message(LoginXml(x, c));
    if m.None? then SimpleOutcome(NotSent, [], p)
    else
      var reply := ReadLenient(true, p);
      if reply.result.None? || reply.result.value == [] then SimpleOutcome(NoReply, m.value, reply.left)
      else if Contains(reply.result.value, Code1000) then SimpleOutcome(LoginAccepted, m.value, reply.left)
      else SimpleOutcome(LoginRejected, m.value, reply.left)
  }

  /** The login is the only thing ever written, and it is written exactly
      when a non-empty greeting was read and its frame could be built. */
  lemma LoginOnlyAfterGreeting(x: SimpleXml, c: Credentials, p: seq<seq<byte>>)
    requires Segmented(p)
    ensures var r := SimpleRun(x, c, p);
      var g := ReadLenient(true, p).result;
      var m := Transport.Message(LoginXml(x, c));
      && (r.out != [] <==> g.Some? && g.value != [] && m.Some?)
      && (r.out != [] ==> r.out == m.value)
  {
    var m := Transport.Message(LoginXml(x, c));
    if m.Some? {
      assert |m.value| >= 4;
    }
  }

  /** The login is reported successful exactly when a greeting came, the
      login was sent and its reply contains "1000". */
  lemma AcceptedIffCode1000(x: SimpleXml, c: Credentials, p: seq<seq<byte>>)
    requires Segmented(p)
    ensures var r := SimpleRun(x, c, p);
      var g := ReadLenient(true, p);
      var reply := ReadLenient(true, g.left).result;
      r.report == LoginAccepted <==>
        && g.result.Some? && g.result.value != []
        && Transport.Message(LoginXml(x, c)).Some?
        && reply.Some? && reply.value != [] && Contains(reply.value, Code1000)
  {
  }

  /** The login test of `main`. */
  method TestLogin(s: Socket, x: SimpleXml, c: Credentials) returns (report: Report)
    requires s.Valid() && s.open
    modifies s
    ensures s.Valid() && s.open
    ensures var r := LoginTest(x, c, old(s.pending));
      report == r.report && s.sent == old(s.sent) + r.out && s.pending == r.left
  {
    var sent := SendMessage(s, LoginXml(x, c));
    if !sent {
      return NotSent;
    }
    var response := ReadMessage(s);
    if response.None? || response.value == [] {
      return NoReply;
    }
    report := if Contains(response.value, Code1000) then LoginAccepted else LoginRejected;
  }

  /** `main` once `connect_epp` returned a socket. */
  method Session(s: Socket, x: SimpleXml, c: Credentials) returns (report: Report)
    requires s.Valid() && s.open
    modifies s
    ensures s.Valid() && !s.open
    ensures var r := SimpleRun(x, c, old(s.pending));
      report == r.report && s.sent == old(s.sent) + r.out && s.pending == r.left
  {
    var greeting := ReadMessage(s);
    report := NoGreeting;
    if greeting.Some? && greeting.value != [] {
      report := TestLogin(s, x, c);
    }
    s.Close();
  }

  /** `main`: `channel` is what `connect_epp` returned, null when it failed;
      the socket is closed in every case after a successful connect. */
  method Run(channel: Socket?, c: Credentials) returns (report: Report)
    requires channel != null ==> channel.Valid() && channel.open
    modifies channel
    ensures channel == null ==> report == NoConnection
    ensures channel != null ==> (
      var r := SimpleRun(Templates, c, old(channel.pending));
      && report == r.report && channel.sent == old(channel.sent) + r.out && channel.pending == r.left
      && !channel.open)
  {
    if channel == null {
      return NoConnection;
    }
    report := Session(channel, Templates, c);
  }
}
