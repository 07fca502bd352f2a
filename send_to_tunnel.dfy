/** BNDDEV-EPP/send_to_tunnel.py: turn the first argument into one EPP
    command (a fixed template, a domain:info for a named domain, or the
    argument itself as XML) and exchange one frame with the local tunnel,
    reading the reply with a single `recv` for the payload. */
module SendToTunnel {
  import opened Wire
  import opened Text
  import opened Net
  import opened Readers
  import opened Commands
  import Frame
  import Transport

  // ------------------------------------------------------------ templates

  /** The script's templates: the login cut where the client identifier
      and the password go, the domain:info cut where the domain goes. */
  datatype TunnelXml = TunnelXml(loginHead: string, loginPw: string, loginTail: string,
                                 infoHead: string, infoTail: string, logout: string)

  const Templates := TunnelXml(
    Prolog + "<command>\n<login>\n<clID>",
    "</clID>\n<pw>",
    "</pw>\n<options><version>1.0</version><lang>en</lang></options>\n<svcs>\n"
    + "<objURI>urn:ietf:params:xml:ns:domain-1.0</objURI>\n"
    + "<objURI>urn:ietf:params:xml:ns:contact-1.0</objURI>\n"
    + "<objURI>urn:ietf:params:xml:ns:host-1.0</objURI>\n</svcs>\n</login>\n"
    + "<clTRID>TUNNEL-LOGIN</clTRID>\n</command>\n</epp>",
    Prolog + "<command>\n<info>\n<domain:info xmlns:domain=\"urn:ietf:params:xml:ns:domain-1.0\">\n<domain:name>",
    "</domain:name>\n</domain:info>\n</info>\n<clTRID>TUNNEL-DOMINFO</clTRID>\n</command>\n</epp>",
    Prolog + "<command>\n<logout/>\n<clTRID>TUNNEL-LOGOUT</clTRID>\n</command>\n</epp>")

  /** The domain of a domain:info command that names none. */
  const DefaultDomain := "xn--j11av3u.xn--hxt814e"

  const InfoCommand := "domain:info"

  function LoginXml(x: TunnelXml, c: Credentials): string
  {
    x.loginHead + c.clID + x.loginPw + c.pw + x.loginTail
  }

  function DomainInfoXml(x: TunnelXml, domain: string): string
  {
    x.infoHead + domain + x.infoTail
  }

  /** The domain a domain:info command names: its second
      whitespace-separated word, or the default. */
  function InfoDomain(command: string): (d: string)
    ensures d == DefaultDomain || (d != [] && NoSpace(d))
  {
    var parts := Words(command);
    if |parts| > 1 then parts[1] else DefaultDomain
  }

  /** `main`'s choice of the XML to send for `command` (sys.argv[1]). */
  function SelectXml(x: TunnelXml, c: Credentials, command: string): (r: string)
    ensures r == command || command == "login" || command == "logout" || InfoCommand <= command
  {
    if command == "login" then LoginXml(x, c)
    else if InfoCommand <= command then DomainInfoXml(x, InfoDomain(command))
    else if command == "logout" then x.logout
    else command
  }

  /** `login` and `logout` select their templates. */
  lemma FixedTemplates(x: TunnelXml, c: Credentials)
    ensures SelectXml(x, c, "login") == LoginXml(x, c)
    ensures SelectXml(x, c, "logout") == x.logout
  {
    assert !(InfoCommand <= "logout") by {
      assert "logout"[0] != InfoCommand[0];
    }
  }

  /** A domain:info command whose second word is `name` asks about `name`. */
  lemma InfoNamesDomain(x: TunnelXml, c: Credentials, head: string, name: string, rest: string)
    requires InfoCommand <= head && NoSpace(head)
    requires name != [] && NoSpace(name)
    requires rest == [] || IsSpace(rest[0])
    ensures SelectXml(x, c, head + " " + name + rest) == DomainInfoXml(x, name)
  {
    var command := head + " " + name + rest;
    SecondWord(head, name, rest);
    AppendAssoc(head, " " + name, rest);
    AppendAssoc(head, " ", name);
    PrefixOfAppend(head, " " + name + rest);
    assert command != "login" by {
      assert |command| > |InfoCommand| > 5;
    }
  }

  /** A domain:info command of one word, whitespace after it or not, asks
      about the default domain. */
  lemma InfoWithoutDomain(x: TunnelXml, c: Credentials, head: string, trailing: string)
    requires InfoCommand <= head && NoSpace(head) && AllSpace(trailing)
    ensures SelectXml(x, c, head + trailing) == DomainInfoXml(x, DefaultDomain)
  {
    var command := head + trailing;
    WordThenSpace(head, trailing);
    PrefixOfAppend(head, trailing);
    assert command != "login" by {
      assert |command| > 5;
    }
  }

  /** Any other argument is sent as it stands. */
  lemma OtherwiseVerbatim(x: TunnelXml, c: Credentials, command: string)
    requires command != "login" && command != "logout" && !(InfoCommand <= command)
    ensures SelectXml(x, c, command) == command
  {
  }

  // ------------------------------------------------------------- exchange

  /** How `send_epp_to_tunnel` ends: in its handler with the fault, or
      after the close with the reply payload, None when no four-byte
      header came. */
  datatype Ending = Usage | Failed(fault: Fault) | Delivered(reply: Option<seq<byte>>)

  datatype TunnelOutcome = TunnelOutcome(ending: Ending, out: seq<byte>, left: seq<seq<byte>>, closed: bool)

  /** `send_epp_to_tunnel(xml)` after the connect, on an open socket with
      `p` pending: struct.pack raises before anything is written; a
      negative declared length makes the payload `recv` raise; the socket
      is closed only when nothing raised. */
  function Exchange(text: string, p: seq<seq<byte>>): (r: TunnelOutcome)
    requires Segmented(p)
    ensures Segmented(r.left)
  {
    var m := Transport.Message(text);
    if m.None? then TunnelOutcome(Failed(StructError), [], p, false)
    else
      var reply := ReadSingle(p);
      if reply.result.Err? then TunnelOutcome(Failed(reply.result.fault), m.value, reply.left, false)
      else TunnelOutcome(Delivered(reply.result.value), m.value, reply.left, true)
  }

  /** One frame out, at most one frame in: what is written is exactly the
      frame of `text`; a reply is reported only after a four-byte header,
      and it is the next bytes of the stream and no longer than the
      header declares. */
  lemma ExchangeOneFrame(text: string, p: seq<seq<byte>>)
    requires Segmented(p)
    ensures var r := Exchange(text, p); var m := Transport.Message(text);
      && r.out == (if m.Some? then m.value else [])
      && (r.ending.Delivered? && r.ending.reply.Some? ==>
            var f := Flatten(p); var y := r.ending.reply.value;
            && |Chunk(p, 4)| == 4 && |y| <= Frame.DeclaredPayload(f[..4]) && y == f[4..4 + |y|])
      && (r.closed <==> r.ending.Delivered?)
  {
    SingleReadOnStream(p);
  }

  method SendToTunnel(s: Socket, text: string) returns (ending: Ending)
    requires s.Valid() && s.open
    modifies s
    ensures s.Valid()
    ensures var r := Exchange(text, old(s.pending));
      && ending == r.ending && s.sent == old(s.sent) + r.out && s.pending == r.left
      && s.open == !r.closed
  {
    var written := Transport.WriteFrame(s, text);
    if written.Err? {
      return Failed(written.fault);
    }
    var reply := ReadSingleFrame(s);
    if reply.Err? {
      return Failed(reply.fault);
    }
    s.Close();
    return Delivered(reply.value);
  }

  // ----------------------------------------------------------------- main

  /** `main` with `sys.argv` (the script's name first) and, when it gets as
      far, a socket open to the tunnel with `p` pending. */
  function TunnelRun(x: TunnelXml, c: Credentials, argv: seq<string>, p: seq<seq<byte>>): (r: TunnelOutcome)
    requires Segmented(p)
    ensures Segmented(r.left)
  {
    if |argv| < 2 then TunnelOutcome(Usage, [], p, false)
    else Exchange(SelectXml(x, c, argv[1]), p)
  }

  /** Without an argument nothing is sent; with one, exactly the frame of
      the XML it selects is sent. */
  lemma UsageSendsNothing(x: TunnelXml, c: Credentials, argv: seq<string>, p: seq<seq<byte>>)
    requires Segmented(p)
    ensures var r := TunnelRun(x, c, argv, p);
      && (|argv| < 2 <==> r.ending == Usage)
      && (|argv| < 2 ==> r.out == [] && r.left == p && !r.closed)
      && (|argv| >= 2 && Transport.Message(SelectXml(x, c, argv[1])).Some? ==>
            r.out == Transport.Message(SelectXml(x, c, argv[1])).value)
  {
  }

  /** `main`: `channel` is the tunnel connection `send_epp_to_tunnel`
      opens, null when the connect fails; it is not used when the usage is
      printed. */
  method Run(channel: Socket?, argv: seq<string>, c: Credentials) returns (ending: Ending)
    requires channel != null ==> channel.Valid() && channel.open
    modifies channel
    ensures channel == null ==> ending == (if |argv| < 2 then Usage else Failed(ConnectFailed))
    ensures channel != null ==> (
      var r := TunnelRun(Templates, c, argv, old(channel.pending));
      && ending == r.ending && channel.sent == old(channel.sent) + r.out && channel.pending == r.left
      && channel.open == !r.closed)
  {
    if |argv| < 2 {
      return Usage;
    }
    var xml := SelectXml(Templates, c, argv[1]);
    if channel == null {
      return Failed(ConnectFailed);
    }
    ending := SendToTunnel(channel, xml);
  }
}
