/** BNDDEV-EPP/epp_auto.py: a fixed login, domain:info, logout sequence
    over one TLS socket. Every reply is one frame read with a single
    `recv` for the payload, the greeting header is unpacked without a
    length check, and any exception ends the run in the handler of
    `main`, leaving the socket open. */
module EppAuto {
  import opened Wire
  import opened Net
  import opened Readers
  import opened Commands
  import Frame
  import Transport

  // ------------------------------------------------------------ templates

  /** The script's three commands, written on one line each; the login is
      cut where the client identifier and the password go. */
  datatype AutoXml = AutoXml(loginHead: string, loginPw: string, loginTail: string,
                             domainInfo: string, logout: string)

  const Head := "<?xml version=\"1.0\" encoding=\"UTF-8\" standalone=\"no\"?>"
    + "<epp xmlns=\"urn:ietf:params:xml:ns:epp-1.0\"><command>"

  const Templates := AutoXml(
    Head + "<login><clID>",
    "</clID><pw>",
    "</pw><options><version>1.0</version><lang>en</lang></options><svcs>"
    + "<objURI>urn:ietf:params:xml:ns:domain-1.0</objURI>"
    + "<objURI>urn:ietf:params:xml:ns:contact-1.0</objURI>"
    + "<objURI>urn:ietf:params:xml:ns:host-1.0</objURI></svcs></login>"
    + "<clTRID>CLI-LOGIN-AUTO</clTRID></command></epp>",
    Head + "<info><domain:info xmlns:domain=\"urn:ietf:params:xml:ns:domain-1.0\">"
    + "<domain:name>xn--j11av3u.xn--hxt814e</domain:name></domain:info></info>"
    + "<clTRID>CLI-DOMINFO-AUTO</clTRID></command></epp>",
    Head + "<logout/><clTRID>CLI-LOGOUT-AUTO</clTRID></command></epp>")

  function LoginXml(x: AutoXml, c: Credentials): string
  {
    x.loginHead + c.clID + x.loginPw + c.pw + x.loginTail
  }

  // ------------------------------------------------------------- exchange

  /** One `send_epp_command`: its result (a fault when it raises), the
      bytes it writes and the segments left. */
  datatype Exchange = Exchange(result: Result<Option<seq<byte>>>, out: seq<byte>, left: seq<seq<byte>>)

  /** `send_epp_command(sock, text)` on an open socket with `p` pending:
      struct.pack raises before anything is written when the frame cannot
      be built; otherwise the frame is written and one reply read with a
      single payload `recv`. */
  function AutoExchange(p: seq<seq<byte>>, text: string): (e: Exchange)
    requires Segmented(p)
    ensures Segmented(e.left)
  {
    var m := Transport.Message(text);
    if m.None? then Exchange(Err(StructError), [], p)
    else
      var r := ReadSingle(p);
      Exchange(r.result, m.value, r.left)
  }

  /** What one exchange does, on the stream: it writes exactly the frame of
      `text` (header `len + 4`, then the UTF-8 text) and reads exactly what
      the single-recv reader reads, which is never more than the reply's
      declared payload. */
  lemma ExchangeWritesOneFrame(p: seq<seq<byte>>, text: string)
    requires Segmented(p) && |Utf8(text)| + 4 < U32Bound
    ensures var e := AutoExchange(p, text);
      && |e.out| == |Utf8(text)| + 4
      && Frame.DeclaredPayload(e.out[..4]) == |Utf8(text)|
      && e.out[4..] == Utf8(text)
      && e.result == ReadSingle(p).result && e.left == ReadSingle(p).left
  {
  }

  /** `send_epp_command` on a socket the script holds open. */
  method SendCommand(s: Socket, text: string) returns (r: Result<Option<seq<byte>>>)
    requires s.Valid() && s.open
    modifies s
    ensures s.Valid() && s.open
    ensures var e := AutoExchange(old(s.pending), text);
      r == e.result && s.sent == old(s.sent) + e.out && s.pending == e.left
  {
    var written := Transport.WriteFrame(s, text);
    if written.Err? {
      return Err(written.fault);
    }
    r := ReadSingleFrame(s);
  }

  // ------------------------------------------------------------- greeting

  /** The greeting read of `main`: `struct.unpack` raises unless the first
      `recv(4)` gave four bytes, then one `recv(header - 4)`. */
  function AutoGreeting(p: seq<seq<byte>>): (r: Read<Result<seq<byte>>>)
    requires Segmented(p)
    ensures Segmented(r.left)
  {
    var h := Chunk(p, 4);
    var q := Rest(p, 4);
    if |h| != 4 then Read(Err(StructError), q)
    else
      var n := Frame.DeclaredPayload(h);
      if n < 0 then Read(Err(NegativeRecvSize), q)
      else Read(Ok(Chunk(q, n)), Rest(q, n))
  }

  /** The greeting read is the single-recv reply reader except that a short
      header raises instead of giving None. */
  lemma GreetingIsSingleRead(p: seq<seq<byte>>)
    requires Segmented(p)
    ensures var g := AutoGreeting(p); var r := ReadSingle(p);
      && g.left == r.left
      && (g.result == Err(StructError) <==> r.result == Ok(None))
      && (g.result.Ok? <==> r.result.Ok? && r.result.value.Some?)
      && (g.result.Ok? ==> r.result.value.value == g.result.value)
  {
  }

  method ReadGreeting(s: Socket) returns (r: Result<seq<byte>>)
    requires s.Valid() && s.open
    modifies s`pending
    ensures s.Valid()
    ensures Read(r, s.pending) == AutoGreeting(old(s.pending))
  {
    var header := s.Recv(4);
    if |header.value| != 4 {
      return Err(StructError);
    }
    var greeting := s.Recv(Frame.DeclaredPayload(header.value));
    if greeting.Err? {
      return Err(greeting.fault);
    }
    return Ok(greeting.value);
  }

  // ----------------------------------------------------------------- main

  /** How `main` ends: in the exception handler with the fault, after a
      login reply without "1000", or after the logout. */
  datatype Ending = Failed(fault: Fault) | LoginFailed | Completed

  /** The end of a run, what it wrote, the segments it left and whether it
      closed the socket. */
  datatype AutoOutcome = AutoOutcome(ending: Ending, out: seq<byte>, left: seq<seq<byte>>, closed: bool)

  /** The part of `main` after a login reply containing "1000": the
      domain:info, then the logout, then the close. */
  function AfterLogin(x: AutoXml, p: seq<seq<byte>>): (r: AutoOutcome)
    requires Segmented(p)
    ensures Segmented(r.left)
  {
    var info := AutoExchange(p, x.domainInfo);
    if info.result.Err? then AutoOutcome(Failed(info.result.fault), info.out, info.left, false)
    else
      var bye := AutoExchange(info.left, x.logout);
      if bye.result.Err? then AutoOutcome(Failed(bye.result.fault), info.out + bye.out, bye.left, false)
      else AutoOutcome(Completed, info.out + bye.out, bye.left, true)
  }

  /** `main` on the socket the handshake gave, with `p` pending. A missing
      login reply makes `"1000" in None` raise. */
  function AutoRun(x: AutoXml, c: Credentials, p: seq<seq<byte>>): (r: AutoOutcome)
    requires Segmented(p)
    ensures Segmented(r.left)
  {
    var g := AutoGreeting(p);
    if g.result.Err? then AutoOutcome(Failed(g.result.fault), [], g.left, false)
    else
      var login := AutoExchange(g.left, LoginXml(x, c));
      if login.result.Err? then AutoOutcome(Failed(login.result.fault), login.out, login.left, false)
      else if login.result.value.None? then AutoOutcome(Failed(NotAString), login.out, login.left, false)
      else if !Contains(login.result.value.value, Code1000) then AutoOutcome(LoginFailed, login.out, login.left, true)
      else
        var rest := AfterLogin(x, login.left);
        AutoOutcome(rest.ending, login.out + rest.out, rest.left, rest.closed)
  }

  /** The greeting is read before anything is written: a greeting that
      raises ends the run with nothing written, and otherwise the login
      frame is the first thing written. */
  lemma GreetingBeforeCommands(x: AutoXml, c: Credentials, p: seq<seq<byte>>)
    requires Segmented(p)
    ensures var r := AutoRun(x, c, p); var m := Transport.Message(LoginXml(x, c));
      && (AutoGreeting(p).result.Err? ==> r.out == [] && r.ending == Failed(AutoGreeting(p).result.fault))
      && (AutoGreeting(p).result.Ok? && m.Some? ==> m.value <= r.out)
  {
    var r := AutoRun(x, c, p);
    var m := Transport.Message(LoginXml(x, c));
    if AutoGreeting(p).result.Ok? && m.Some? {
      var login := AutoExchange(AutoGreeting(p).left, LoginXml(x, c));
      if login.result.Ok? && login.result.value.Some? && Contains(login.result.value.value, Code1000) {
        PrefixOfAppend(login.out, AfterLogin(x, login.left).out);
      }
    }
  }

  /** The domain:info and the logout are written only after a login reply
      containing "1000", and then in that order: whatever the run wrote is
      a prefix of login, domain:info, logout, and it goes past the login
      only when the login reply contained "1000". */
  lemma InfoAndLogoutOnlyAfterSuccess(x: AutoXml, c: Credentials, p: seq<seq<byte>>)
    requires Segmented(p)
    requires Transport.Message(LoginXml(x, c)).Some?
    requires Transport.Message(x.domainInfo).Some? && Transport.Message(x.logout).Some?
    ensures var r := AutoRun(x, c, p);
      var all := Transport.Message(LoginXml(x, c)).value + Transport.Message(x.domainInfo).value
                 + Transport.Message(x.logout).value;
      var g := AutoGreeting(p);
      var login := AutoExchange(g.left, LoginXml(x, c));
      && r.out <= all
      && (|r.out| > |Transport.Message(LoginXml(x, c)).value| ==>
            g.result.Ok? && login.result.Ok? && login.result.value.Some?
            && Contains(login.result.value.value, Code1000))
      && (r.ending == Completed ==> r.out == all)
  {
    var L := Transport.Message(LoginXml(x, c)).value;
    var I := Transport.Message(x.domainInfo).value;
    var B := Transport.Message(x.logout).value;
    var r := AutoRun(x, c, p);
    var g := AutoGreeting(p);
    AppendAssoc(L, I, B);
    PrefixOfAppend(L + I, B);
    PrefixOfAppend(L, I + B);
    if g.result.Ok? {
      var login := AutoExchange(g.left, LoginXml(x, c));
      if login.result.Ok? && login.result.value.Some? && Contains(login.result.value.value, Code1000) {
        AfterLoginWrites(x, login.left);
        var rest := AfterLogin(x, login.left);
        PrefixAfter(L, rest.out, I + B);
      }
    }
  }

  lemma PrefixAfter(a: seq<byte>, b: seq<byte>, c: seq<byte>)
    requires b <= c
    ensures a + b <= a + c
  {
    assert (a + c)[..|a + b|] == a + b;
  }

  /** What the part after a successful login writes: the domain:info frame,
      then the logout frame only when the domain:info did not raise. */
  lemma AfterLoginWrites(x: AutoXml, p: seq<seq<byte>>)
    requires Segmented(p)
    requires Transport.Message(x.domainInfo).Some? && Transport.Message(x.logout).Some?
    ensures var r := AfterLogin(x, p);
      var I := Transport.Message(x.domainInfo).value;
      var B := Transport.Message(x.logout).value;
      && r.out <= I + B
      && (r.ending == Completed ==> r.out == I + B)
  {
    var I := Transport.Message(x.domainInfo).value;
    var B := Transport.Message(x.logout).value;
    PrefixOfAppend(I, B);
  }

  /** Every fault ends the run in the handler and leaves the socket open;
      the socket is closed exactly when the run reached the end of the
      `try` block. */
  lemma ClosedOnlyWithoutFault(x: AutoXml, c: Credentials, p: seq<seq<byte>>)
    requires Segmented(p)
    ensures var r := AutoRun(x, c, p); r.closed <==> !r.ending.Failed?
  {
  }

  /** A login that gets no reply frame (a short header) ends the run with
      TypeError: nothing after the login is written. */
  lemma MissingLoginReplyRaises(x: AutoXml, c: Credentials, p: seq<seq<byte>>)
    requires Segmented(p)
    requires AutoGreeting(p).result.Ok?
    requires Transport.Message(LoginXml(x, c)).Some?
    requires |Chunk(AutoGreeting(p).left, 4)| != 4
    ensures var r := AutoRun(x, c, p);
      r.ending == Failed(NotAString) && r.out == Transport.Message(LoginXml(x, c)).value && !r.closed
  {
  }

  /** The domain:info and the logout of `main`. */
  method Finish(s: Socket, x: AutoXml) returns (ending: Ending)
    requires s.Valid() && s.open
    modifies s
    ensures s.Valid()
    ensures var r := AfterLogin(x, old(s.pending));
      && ending == r.ending && s.sent == old(s.sent) + r.out && s.pending == r.left
      && s.open == !r.closed
  {
    ghost var info := AutoExchange(s.pending, x.domainInfo);
    var infoReply := SendCommand(s, x.domainInfo);
    if infoReply.Err? {
      return Failed(infoReply.fault);
    }
    ghost var bye := AutoExchange(s.pending, x.logout);
    var byeReply := SendCommand(s, x.logout);
    AppendAssoc(old(s.sent), info.out, bye.out);
    if byeReply.Err? {
      return Failed(byeReply.fault);
    }
    s.Close();
    return Completed;
  }

  /** `main` once the handshake gave a socket. */
  method Sequence(s: Socket, x: AutoXml, c: Credentials) returns (ending: Ending)
    requires s.Valid() && s.open
    modifies s
    ensures s.Valid()
    ensures var r := AutoRun(x, c, old(s.pending));
      && ending == r.ending && s.sent == old(s.sent) + r.out && s.pending == r.left
      && s.open == !r.closed
  {
    var greeting := ReadGreeting(s);
    if greeting.Err? {
      return Failed(greeting.fault);
    }
    ghost var login := AutoExchange(s.pending, LoginXml(x, c));
    var reply := SendCommand(s, LoginXml(x, c));
    if reply.Err? {
      return Failed(reply.fault);
    }
    if reply.value.None? {
      return Failed(NotAString);
    }
    if !Contains(reply.value.value, Code1000) {
      s.Close();
      return LoginFailed;
    }
    ghost var rest := AfterLogin(x, s.pending);
    ending := Finish(s, x);
    AppendAssoc(old(s.sent), login.out, rest.out);
  }

  /** `main`: `channel` is the socket the handshake produced, null when the
      certificate, the TCP connect or the handshake failed. */
  method Run(channel: Socket?, c: Credentials) returns (ending: Ending)
    requires channel != null ==> channel.Valid() && channel.open
    modifies channel
    ensures channel == null ==> ending == Failed(ConnectFailed)
    ensures channel != null ==> (
      var r := AutoRun(Templates, c, old(channel.pending));
      && ending == r.ending && channel.sent == old(channel.sent) + r.out && channel.pending == r.left
      && channel.open == !r.closed)
  {
    if channel == null {
      return Failed(ConnectFailed);
    }
    ending := Sequence(channel, Templates, c);
  }
}
