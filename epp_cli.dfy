/** BNDDEV-EPP/epp_cli.py: an EPP client object holding a socket and a
    `connected` flag, the strict frame reader, one reply read per command
    written, and an interactive loop driven by lines typed at a prompt. */
module EppCli {
  import opened Wire
  import opened Text
  import opened Net
  import opened Readers
  import opened Commands
  import Transport

  // ------------------------------------------------------------ templates

  /** The fixed text of the script's XML commands, cut where the values go.
      The session below is stated for any texts; `Templates` is the
      script's own. */
  datatype CliXml = CliXml(
    loginHead: string, loginPw: string, loginTrid: string, loginTail: string,
    hello: string,
    infoHead: string, infoTrid: string, infoTail: string,
    logoutHead: string, logoutTail: string)

  const Templates := CliXml(
    Prolog + "  <command>\n    <login>\n      <clID>",
    "</clID>\n      <pw>",
    "</pw>\n      <options>\n        <version>1.0</version>\n        <lang>en</lang>\n      </options>\n"
    + "      <svcs>\n        <objURI>urn:ietf:params:xml:ns:domain-1.0</objURI>\n"
    + "        <objURI>urn:ietf:params:xml:ns:contact-1.0</objURI>\n"
    + "        <objURI>urn:ietf:params:xml:ns:host-1.0</objURI>\n      </svcs>\n    </login>\n    <clTRID>",
    "</clTRID>\n  </command>\n</epp>",
    Prolog + "  <hello/>\n</epp>",
    Prolog + "  <command>\n    <info>\n      <domain:info xmlns:domain=\"urn:ietf:params:xml:ns:domain-1.0\">\n"
    + "        <domain:name>",
    "</domain:name>\n      </domain:info>\n    </info>\n    <clTRID>",
    "</clTRID>\n  </command>\n</epp>",
    Prolog + "  <command>\n    <logout/>\n    <clTRID>",
    "</clTRID>\n  </command>\n</epp>")

  function LoginXml(x: CliXml, login: string, password: string, trid: string): string
  {
    x.loginHead + login + x.loginPw + password + x.loginTrid + trid + x.loginTail
  }

  function DomainInfoXml(x: CliXml, name: string, trid: string): string
  {
    x.infoHead + name + x.infoTrid + trid + x.infoTail
  }

  function LogoutXml(x: CliXml, trid: string): string
  {
    x.logoutHead + trid + x.logoutTail
  }

  /** The login command carries the login, the password and the
      transaction identifier, in that order. */
  lemma LoginCarries(x: CliXml, login: string, password: string, trid: string)
    ensures Contains(LoginXml(x, login, password, trid), login)
    ensures Contains(LoginXml(x, login, password, trid), password)
    ensures Contains(LoginXml(x, login, password, trid), trid)
  {
    var s := LoginXml(x, login, password, trid);
    assert s == x.loginHead + login + (x.loginPw + password + x.loginTrid + trid + x.loginTail);
    ContainsFactor(x.loginHead, login, x.loginPw + password + x.loginTrid + trid + x.loginTail);
    assert s == (x.loginHead + login + x.loginPw) + password + (x.loginTrid + trid + x.loginTail);
    ContainsFactor(x.loginHead + login + x.loginPw, password, x.loginTrid + trid + x.loginTail);
    assert s == (x.loginHead + login + x.loginPw + password + x.loginTrid) + trid + x.loginTail;
    ContainsFactor(x.loginHead + login + x.loginPw + password + x.loginTrid, trid, x.loginTail);
  }

  /** `value or default` for an optional command-line string: a missing or
      empty value falls back to the default. */
  function OrDefault(value: Option<string>, default: string): (r: string)
    ensures r == default || (value.Some? && r == value.value)
    ensures r == default <== (value.None? || value.value == [])
  {
    if value.Some? && value.value != [] then value.value else default
  }

  // ------------------------------------------------------------- exchange

  /** What one `_send_command` does to the socket: the bytes it writes, the
      segments left after its read, and whether it returned True. */
  datatype Exchange = Exchange(ok: bool, out: seq<byte>, left: seq<seq<byte>>)

  /** `_send_command(text)` on a socket that is `open` with `p` pending:
      nothing happens when the frame cannot be built or the socket is
      closed; otherwise the frame is written and one frame is read
      strictly, and True means that read succeeded, whatever the reply. */
  function Exchanged(open: bool, p: seq<seq<byte>>, text: string): (e: Exchange)
    requires Segmented(p)
    ensures Segmented(e.left)
  {
    var m := Transport.Message(text);
    if m.None? || !open then Exchange(false, [], p)
    else
      var r := ReadStrict(p);
      Exchange(r.result.Ok?, m.value, r.left)
  }

  /** One command, one reply: when the peer's stream starts with a reply
      frame whose header arrives whole, the exchange writes exactly the
      command's frame, succeeds, and consumes exactly the reply. */
  lemma ExchangeConsumesOneReply(p: seq<seq<byte>>, text: string, reply: seq<byte>, after: seq<byte>)
    requires Segmented(p) && p != [] && |p[0]| >= 4
    requires |reply| + 4 < U32Bound && Flatten(p) == Frame.Encode(reply).value + after
    requires |Utf8(text)| + 4 < U32Bound
    ensures var e := Exchanged(true, p, text);
      e.ok && e.out == Transport.Message(text).value && Flatten(e.left) == after
  {
    StrictRoundTrip(p, reply, after);
  }

  /** The state change of one `_send_command(text)` on socket `s`, whose
      open flag, pending segments and output were `open0`, `p0`, `sent0`. */
  ghost predicate Did(s: Socket, open0: bool, p0: seq<seq<byte>>, sent0: seq<byte>, text: string, ok: bool)
    reads s
    requires Segmented(p0)
  {
    var e := Exchanged(open0, p0, text);
    ok == e.ok && s.sent == sent0 + e.out && s.pending == e.left && s.open == open0
  }

  // --------------------------------------------------------------- client

  class Client {
    /** The XML texts the methods send. */
    const xml: CliXml
    /** The TLS socket, None until `connect` got as far as the handshake. */
    var socket: Socket?
    /** True once a greeting was read; cleared by `disconnect`. */
    var connected: bool

    ghost predicate Valid()
      reads this, socket
    {
      socket != null ==> socket.Valid()
    }

    constructor ()
      ensures Valid() && socket == null && !connected && xml == Templates
    {
      xml := Templates;
      socket := null;
      connected := false;
    }

    /** `connect`: `channel` is the socket the handshake produced, null when
        loading the certificate, the TCP connect or the handshake failed.
        The socket is kept as soon as the handshake succeeded, but
        `connected` is set only after the greeting has been read. */
    method Connect(channel: Socket?) returns (ok: bool)
      requires Valid() && (channel != null ==> channel.Valid())
      modifies this, channel
      ensures Valid()
      ensures channel == null ==> !ok && socket == old(socket)
      ensures channel != null ==> (
        && socket == channel
        && ok == (old(channel.open) && ReadStrict(old(channel.pending)).result.Ok?)
        && channel.pending == (if old(channel.open) then ReadStrict(old(channel.pending)).left else old(channel.pending))
        && channel.sent == old(channel.sent) && channel.open == old(channel.open))
      ensures connected == (ok || old(connected))
    {
      if channel == null {
        return false;
      }
      socket := channel;
      var greeting := ReadStrictFrame(channel);
      if greeting.Err? {
        return false;
      }
      connected := true;
      return true;
    }

    /** `_send_command`: write one frame, read one frame. Any exception
        (no socket, a length struct.pack rejects, a closed socket, a failed
        read) makes it return False. */
    method SendCommand(text: string) returns (ok: bool)
      requires Valid()
      modifies socket
      ensures Valid()
      ensures socket == null ==> !ok
      ensures socket != null ==> Did(socket, old(socket.open), old(socket.pending), old(socket.sent), text, ok)
    {
      if socket == null {
        return false;
      }
      var written := Transport.WriteFrame(socket, text);
      if written.Err? {
        return false;
      }
      var reply := ReadStrictFrame(socket);
      return reply.Ok?;
    }

    /** `login`: refused without writing anything unless connected; a
        missing or empty login or password falls back to the defaults. */
    method Login(login: Option<string>, password: Option<string>, defaults: Credentials, now: DateTime)
      returns (ok: bool)
      requires Valid()
      modifies socket
      ensures Valid()
      ensures !connected ==> !ok && (socket != null ==> socket.sent == old(socket.sent) && socket.pending == old(socket.pending))
      ensures connected && socket == null ==> !ok
      ensures connected && socket != null ==> Did(socket, old(socket.open), old(socket.pending), old(socket.sent),
        LoginXml(xml, OrDefault(login, defaults.clID), OrDefault(password, defaults.pw), ClTRID(now)), ok)
    {
      if !connected {
        return false;
      }
      ok := SendCommand(LoginXml(xml, OrDefault(login, defaults.clID), OrDefault(password, defaults.pw), ClTRID(now)));
    }

    /** `send_custom_command`: refused without writing anything unless
        connected. */
    method SendCustomCommand(command: string) returns (ok: bool)
      requires Valid()
      modifies socket
      ensures Valid()
      ensures !connected ==> !ok && (socket != null ==> socket.sent == old(socket.sent) && socket.pending == old(socket.pending))
      ensures connected && socket == null ==> !ok
      ensures connected && socket != null ==> Did(socket, old(socket.open), old(socket.pending), old(socket.sent), command, ok)
    {
      if !connected {
        return false;
      }
      ok := SendCommand(command);
    }

    /** `hello`: no `connected` guard. */
    method Hello() returns (ok: bool)
      requires Valid()
      modifies socket
      ensures Valid()
      ensures socket == null ==> !ok
      ensures socket != null ==> Did(socket, old(socket.open), old(socket.pending), old(socket.sent), xml.hello, ok)
    {
      ok := SendCommand(xml.hello);
    }

    /** `domain_info`: no `connected` guard. */
    method DomainInfo(name: string, now: DateTime) returns (ok: bool)
      requires Valid()
      modifies socket
      ensures Valid()
      ensures socket == null ==> !ok
      ensures socket != null ==> Did(socket, old(socket.open), old(socket.pending), old(socket.sent), DomainInfoXml(xml, name, ClTRID(now)), ok)
    {
      ok := SendCommand(DomainInfoXml(xml, name, ClTRID(now)));
    }

    /** `disconnect`: with a socket, close it and clear `connected`;
        without one, nothing happens. */
    method Disconnect()
      requires Valid()
      modifies this`connected, socket
      ensures Valid()
      ensures socket != null ==> (
        && !socket.open && !connected
        && socket.pending == old(socket.pending) && socket.sent == old(socket.sent))
      ensures socket == null ==> connected == old(connected)
    {
      if socket != null {
        socket.Close();
        connected := false;
      }
    }

    /** `logout`: send the logout command, then disconnect whatever the
        outcome; the result is that of the exchange. */
    method Logout(now: DateTime) returns (ok: bool)
      requires Valid()
      modifies this`connected, socket
      ensures Valid()
      ensures socket == null ==> !ok && connected == old(connected)
      ensures socket != null ==> (
        && !socket.open && !connected
        && var e := Exchanged(old(socket.open), old(socket.pending), LogoutXml(xml, ClTRID(now)));
           ok == e.ok && socket.sent == old(socket.sent) + e.out && socket.pending == e.left)
    {
      ok := SendCommand(LogoutXml(xml, ClTRID(now)));
      Disconnect();
    }

    /** One command of the interactive loop other than `quit` and `logout`:
        the commands that send something make one exchange, the others
        (a blank line, an unknown command, `domain:info` without a name)
        only print. */
    method Dispatch(command: CliCommand, now: DateTime)
      requires Valid() && connected && socket != null && !Stops(command)
      modifies socket
      ensures Valid()
      ensures var t := CommandText(xml, command, now);
        var e := if t.Some? then Exchanged(old(socket.open), old(socket.pending), t.value)
                 else Exchange(false, [], old(socket.pending));
        socket.sent == old(socket.sent) + e.out && socket.pending == e.left && socket.open == old(socket.open)
    {
      match command
      case HelloCmd =>
        var _ := Hello();
      case InfoCmd(name) =>
        var _ := DomainInfo(name, now);
      case XmlCmd(body) =>
        var _ := SendCustomCommand(body);
      case MissingName =>
      case Blank =>
      case Unknown =>
    }

    /** The turn of the loop for `command`, the first of `cs`, which neither quits
        nor logs out: what it writes and reads is what `CliDialogue` does
        for that command, the rest of the dialogue being left to the
        commands after it. */
    method Turn(command: CliCommand, now: DateTime, ghost cs: seq<Typed>)
      requires Valid() && connected && socket != null && socket.open
      requires cs != [] && cs[0] == Typed(command, now) && !Stops(command)
      modifies socket
      ensures Valid() && socket.open
      ensures var rest := CliDialogue(xml, cs[1..], socket.pending);
        var whole := CliDialogue(xml, cs, old(socket.pending));
        && socket.sent + rest.out == old(socket.sent) + whole.out
        && rest.left == whole.left && rest.loggedOut == whole.loggedOut
    {
      ghost var t := CommandText(xml, cs[0].command, cs[0].at);
      ghost var e := if t.Some? then Exchanged(true, socket.pending, t.value) else Exchange(false, [], socket.pending);
      DialogueStep(xml, cs, socket.pending);
      Dispatch(command, now);
      ghost var d := CliDialogue(xml, cs[1..], e.left);
      AppendAssoc(old(socket.sent), e.out, d.out);
    }

    /** The last turn of the loop: `quit` leaves at once, `logout` sends
        the logout command and disconnects. */
    method Finish(command: CliCommand, now: DateTime, ghost cs: seq<Typed>)
      requires Valid() && connected && socket != null && socket.open
      requires cs != [] && cs[0] == Typed(command, now) && Stops(command)
      modifies this`connected, socket
      ensures Valid()
      ensures var d := CliDialogue(xml, cs, old(socket.pending));
        && socket.sent == old(socket.sent) + d.out && socket.pending == d.left
        && socket.open == !d.loggedOut && connected == !d.loggedOut
    {
      DialogueStop(xml, cs, socket.pending);
      if command == LogoutCmd {
        var _ := Logout(now);
      } else {
        assert socket.sent == old(socket.sent) + [];
      }
    }

    /** The interactive loop of `main`: one line per prompt, handled as
        `CliDialogue` says, until `quit`, `logout` or the end of input. */
    method Interact(lines: seq<Line>)
      requires Valid() && connected && socket != null && socket.open
      modifies this`connected, socket
      ensures Valid()
      ensures var d := CliDialogue(xml, Parsed(lines), old(socket.pending));
        && socket.sent == old(socket.sent) + d.out && socket.pending == d.left
        && socket.open == !d.loggedOut && connected == !d.loggedOut
    {
      ghost var cs := Parsed(lines);
      var i := 0;
      while i < |lines|
        invariant 0 <= i <= |lines|
        invariant Valid() && connected && socket.open
        invariant var rest := CliDialogue(xml, cs[i..], socket.pending);
          var whole := CliDialogue(xml, cs, old(socket.pending));
          && socket.sent + rest.out == old(socket.sent) + whole.out
          && rest.left == whole.left && rest.loggedOut == whole.loggedOut
        decreases |lines| - i
      {
        var command := ParseCliLine(lines[i].text);
        var now := lines[i].at;
        assert cs[i..][0] == cs[i] == Typed(command, now);
        if Stops(command) {
          Finish(command, now, cs[i..]);
          return;
        }
        Turn(command, now, cs[i..]);
        assert cs[i..][1..] == cs[i + 1..];
        i := i + 1;
      }
      assert cs[i..] == [];
    }
  }

  // ---------------------------------------------------------- interactive

  /** A line typed at the prompt and the clock reading taken while it is
      handled. */
  datatype Line = Line(text: string, at: DateTime)

  datatype CliCommand =
    | Quit
    | LogoutCmd
    | HelloCmd
    | InfoCmd(name: string)
    | MissingName
    | XmlCmd(xml: string)
    | Blank
    | Unknown

  /** The dispatch of `main` on `input().strip()`. */
  function ParseCliLine(raw: string): (c: CliCommand)
    ensures c.InfoCmd? ==> c.name != [] && Strip(c.name) == c.name
  {
    var cmd := Strip(raw);
    if cmd == "quit" then Quit
    else if cmd == "logout" then LogoutCmd
    else if cmd == "hello" then HelloCmd
    else if "domain:info " <= cmd then
      var name := Strip(cmd[12..]);
      StripStripped(name);
      if name != [] then InfoCmd(name) else MissingName
    else if "xml:" <= cmd then XmlCmd(Strip(cmd[4..]))
    else if cmd == [] then Blank
    else Unknown
  }

  /** The "please give a domain name" branch cannot be reached: the line
      was stripped, so after "domain:info " there is always a character
      that is not whitespace. */
  lemma MissingNameUnreachable(raw: string)
    ensures ParseCliLine(raw) != MissingName
  {
    var cmd := Strip(raw);
    if "domain:info " <= cmd {
      assert cmd[11] == ' ' && IsSpace(' ');
      var tail := cmd[12..];
      assert tail[|tail| - 1] == cmd[|cmd| - 1];
      StripKeepsLast(tail);
    }
  }

  /** A command as the loop parsed it, with the clock reading taken while
      it is handled. */
  datatype Typed = Typed(command: CliCommand, at: DateTime)

  /** The commands the typed lines stand for, one per line. */
  function Parsed(lines: seq<Line>): (cs: seq<Typed>)
    ensures |cs| == |lines|
  {
    seq(|lines|, k requires 0 <= k < |lines| => Typed(ParseCliLine(lines[k].text), lines[k].at))
  }

  /** The XML a command sends, None for those that send nothing. */
  function CommandText(x: CliXml, c: CliCommand, at: DateTime): Option<string>
  {
    match c
    case LogoutCmd => Some(LogoutXml(x, ClTRID(at)))
    case HelloCmd => Some(x.hello)
    case InfoCmd(name) => Some(DomainInfoXml(x, name, ClTRID(at)))
    case XmlCmd(body) => Some(body)
    case _ => None
  }

  /** What the loop wrote, the segments left, and whether it ended by
      logging out (which closes the socket). */
  datatype Dialogue = Dialogue(out: seq<byte>, left: seq<seq<byte>>, loggedOut: bool)

  /** The interactive loop on a connected, open socket: `quit` and the end
      of input stop it, `logout` sends the logout command and stops it,
      every other command is one exchange. */
  function CliDialogue(x: CliXml, cs: seq<Typed>, p: seq<seq<byte>>): (d: Dialogue)
    requires Segmented(p)
    ensures Segmented(d.left)
  {
    if cs == [] then Dialogue([], p, false)
    else
      var c := cs[0].command;
      if c == Quit then Dialogue([], p, false)
      else
        var t := CommandText(x, c, cs[0].at);
        var e := if t.Some? then Exchanged(true, p, t.value) else Exchange(false, [], p);
        if c == LogoutCmd then Dialogue(e.out, e.left, true)
        else
          var d := CliDialogue(x, cs[1..], e.left);
          Dialogue(e.out + d.out, d.left, d.loggedOut)
  }

  /** One turn of the loop on a line that neither quits nor logs out. */
  lemma DialogueStep(x: CliXml, cs: seq<Typed>, p: seq<seq<byte>>)
    requires Segmented(p) && cs != [] && !Stops(cs[0].command)
    ensures var t := CommandText(x, cs[0].command, cs[0].at);
      var e := if t.Some? then Exchanged(true, p, t.value) else Exchange(false, [], p);
      var d := CliDialogue(x, cs[1..], e.left);
      CliDialogue(x, cs, p) == Dialogue(e.out + d.out, d.left, d.loggedOut)
  {
  }

  /** The loop's last turn: `quit` writes nothing, `logout` one exchange. */
  lemma DialogueStop(x: CliXml, cs: seq<Typed>, p: seq<seq<byte>>)
    requires Segmented(p) && cs != [] && Stops(cs[0].command)
    ensures cs[0].command == Quit ==> CliDialogue(x, cs, p) == Dialogue([], p, false)
    ensures cs[0].command == LogoutCmd ==>
      var e := Exchanged(true, p, LogoutXml(x, ClTRID(cs[0].at)));
      CliDialogue(x, cs, p) == Dialogue(e.out, e.left, true)
  {
  }

  /** The frames the commands make the client write, in order: one per
      command that sends, up to the first `quit` or `logout`. */
  function CliFrames(x: CliXml, cs: seq<Typed>): seq<seq<byte>>
  {
    if cs == [] then []
    else
      var c := cs[0].command;
      if c == Quit then []
      else
        var t := CommandText(x, c, cs[0].at);
        var f := if t.Some? && Transport.Message(t.value).Some? then [Transport.Message(t.value).value] else [];
        if c == LogoutCmd then f else f + CliFrames(x, cs[1..])
  }

  /** `k` strict frame reads in a row. */
  function StrictReads(p: seq<seq<byte>>, k: nat): (q: seq<seq<byte>>)
    requires Segmented(p)
    decreases k
    ensures Segmented(q)
  {
    if k == 0 then p else StrictReads(ReadStrict(p).left, k - 1)
  }

  /** What the loop writes depends on the typed commands alone, never on the
      server's replies, and it reads exactly one frame per frame it
      writes. */
  lemma {:induction false} DialogueShape(x: CliXml, cs: seq<Typed>, p: seq<seq<byte>>)
    requires Segmented(p)
    ensures var d := CliDialogue(x, cs, p);
      d.out == Flatten(CliFrames(x, cs)) && d.left == StrictReads(p, |CliFrames(x, cs)|)
  {
    if cs != [] {
      var c := cs[0].command;
      if c != Quit {
        var t := CommandText(x, c, cs[0].at);
        var e := if t.Some? then Exchanged(true, p, t.value) else Exchange(false, [], p);
        var f := if t.Some? && Transport.Message(t.value).Some? then [Transport.Message(t.value).value] else [];
        assert e.out == Flatten(f) && e.left == StrictReads(p, |f|) by {
          if f != [] { assert Flatten(f) == f[0] + Flatten([]); }
        }
        if c != LogoutCmd {
          DialogueShape(x, cs[1..], e.left);
          FlattenAppend(f, CliFrames(x, cs[1..]));
          StrictReadsAdd(p, |f|, |CliFrames(x, cs[1..])|);
        }
      }
    }
  }

  lemma {:induction false} StrictReadsAdd(p: seq<seq<byte>>, j: nat, k: nat)
    requires Segmented(p)
    ensures StrictReads(p, j + k) == StrictReads(StrictReads(p, j), k)
    decreases j
  {
    if j > 0 {
      StrictReadsAdd(ReadStrict(p).left, j - 1, k);
    }
  }

  predicate Stops(c: CliCommand)
  {
    c == Quit || c == LogoutCmd
  }

  /** Nothing typed after a `quit` or a `logout` has any effect. */
  lemma {:induction false} NothingAfterStop(x: CliXml, cs: seq<Typed>, p: seq<seq<byte>>, i: nat)
    requires Segmented(p) && i < |cs| && Stops(cs[i].command)
    ensures CliDialogue(x, cs, p) == CliDialogue(x, cs[..i + 1], p)
  {
    var c := cs[0].command;
    assert cs[..i + 1][0] == cs[0];
    if i > 0 && !Stops(c) {
      var t := CommandText(x, c, cs[0].at);
      var e := if t.Some? then Exchanged(true, p, t.value) else Exchange(false, [], p);
      assert cs[..i + 1][1..] == cs[1..][..i];
      NothingAfterStop(x, cs[1..], e.left, i - 1);
    }
  }

  // ------------------------------------------------------------------ main

  /** The command-line options `main` uses beyond the server address. */
  datatype CliArgs = CliArgs(login: Option<string>, password: Option<string>, domain: Option<string>)

  /** The exit status of a run, what it wrote and the segments it left. */
  datatype Outcome = Outcome(status: nat, out: seq<byte>, left: seq<seq<byte>>)

  /** What `main` does once logged in, on a connected socket with `p`
      pending: with `--domain`, domain:info then logout; otherwise the
      interactive loop. */
  function Session(x: CliXml, p: seq<seq<byte>>, domain: Option<string>,
                   infoAt: DateTime, logoutAt: DateTime, lines: seq<Line>): (d: Dialogue)
    requires Segmented(p)
    ensures Segmented(d.left)
  {
    if domain.Some? && domain.value != [] then
      var info := Exchanged(true, p, DomainInfoXml(x, domain.value, ClTRID(infoAt)));
      var bye := Exchanged(true, info.left, LogoutXml(x, ClTRID(logoutAt)));
      Dialogue(info.out + bye.out, bye.left, true)
    else CliDialogue(x, Parsed(lines), p)
  }

  /** `main` after argument parsing, on a socket that is `open` with `p`
      pending: greeting, login, then the session. A failed connect or
      login exits with status 1. */
  function CliRun(x: CliXml, open: bool, p: seq<seq<byte>>, args: CliArgs, defaults: Credentials,
                  loginAt: DateTime, infoAt: DateTime, logoutAt: DateTime, lines: seq<Line>): (r: Outcome)
    requires Segmented(p)
    ensures r.status == 0 || r.status == 1
  {
    if !open then Outcome(1, [], p)
    else
      var greeting := ReadStrict(p);
      if greeting.result.Err? then Outcome(1, [], greeting.left)
      else
        var login := Exchanged(true, greeting.left,
          LoginXml(x, OrDefault(args.login, defaults.clID), OrDefault(args.password, defaults.pw), ClTRID(loginAt)));
        if !login.ok then Outcome(1, login.out, login.left)
        else
          var s := Session(x, login.left, args.domain, infoAt, logoutAt, lines);
          Outcome(0, login.out + s.out, s.left)
  }

  /** The greeting comes first: when it cannot be read the run writes
      nothing and fails; a run that succeeds has logged in, and its output
      starts with the login frame. */
  lemma CliRunGreetingFirst(x: CliXml, p: seq<seq<byte>>, args: CliArgs, defaults: Credentials,
                            loginAt: DateTime, infoAt: DateTime, logoutAt: DateTime, lines: seq<Line>)
    requires Segmented(p)
    ensures var r := CliRun(x, true, p, args, defaults, loginAt, infoAt, logoutAt, lines);
      && (ReadStrict(p).result.Err? ==> r.status == 1 && r.out == [])
      && (r.status == 0 ==> (
            && ReadStrict(p).result.Ok?
            && var m := Transport.Message(LoginXml(x, OrDefault(args.login, defaults.clID),
                                                   OrDefault(args.password, defaults.pw), ClTRID(loginAt)));
               m.Some? && m.value <= r.out))
  {
  }

  /** The part of `main` after a successful login. */
  method RunSession(client: Client, domain: Option<string>, infoAt: DateTime, logoutAt: DateTime, lines: seq<Line>)
    requires client.Valid() && client.connected && client.socket != null && client.socket.open
    modifies client`connected, client.socket
    ensures client.Valid()
    ensures var d := Session(client.xml, old(client.socket.pending), domain, infoAt, logoutAt, lines);
      client.socket.sent == old(client.socket.sent) + d.out && client.socket.pending == d.left
  {
    if domain.Some? && domain.value != [] {
      ghost var p0, sent0 := client.socket.pending, client.socket.sent;
      ghost var info := Exchanged(true, p0, DomainInfoXml(client.xml, domain.value, ClTRID(infoAt)));
      ghost var bye := Exchanged(true, info.left, LogoutXml(client.xml, ClTRID(logoutAt)));
      var _ := client.DomainInfo(domain.value, infoAt);
      var _ := client.Logout(logoutAt);
      AppendAssoc(sent0, info.out, bye.out);
      return;
    }
    client.Interact(lines);
  }

  /** `main` after the client object was built: connect, log in, run the
      session, and in every case disconnect. */
  method Drive(client: Client, channel: Socket?, args: CliArgs, defaults: Credentials,
             loginAt: DateTime, infoAt: DateTime, logoutAt: DateTime, lines: seq<Line>)
    returns (status: nat)
    requires client.Valid() && client.socket == null && !client.connected
    requires channel != null ==> channel.Valid()
    modifies client, channel
    ensures channel == null ==> status == 1
    ensures channel != null ==> (
      && !channel.open
      && var r := CliRun(client.xml, old(channel.open), old(channel.pending), args, defaults, loginAt, infoAt, logoutAt, lines);
         status == r.status && channel.sent == old(channel.sent) + r.out && channel.pending == r.left)
  {
    status := 1;
    var ok := client.Connect(channel);
    if ok {
      ghost var sent0 := old(channel.sent);
      ghost var g := ReadStrict(old(channel.pending));
      ghost var login := Exchanged(true, g.left, LoginXml(client.xml, OrDefault(args.login, defaults.clID),
                                                          OrDefault(args.password, defaults.pw), ClTRID(loginAt)));
      ok := client.Login(args.login, args.password, defaults, loginAt);
      if ok {
        ghost var s := Session(client.xml, login.left, args.domain, infoAt, logoutAt, lines);
        RunSession(client, args.domain, infoAt, logoutAt, lines);
        AppendAssoc(sent0, login.out, s.out);
        status := 0;
      }
    }
    client.Disconnect();
  }

  /** `main`: build the client, then drive it. */
  method Run(channel: Socket?, args: CliArgs, defaults: Credentials,
             loginAt: DateTime, infoAt: DateTime, logoutAt: DateTime, lines: seq<Line>)
    returns (status: nat)
    requires channel != null ==> channel.Valid()
    modifies channel
    ensures channel == null ==> status == 1
    ensures channel != null ==> (
      && !channel.open
      && var r := CliRun(Templates, old(channel.open), old(channel.pending), args, defaults, loginAt, infoAt, logoutAt, lines);
         status == r.status && channel.sent == old(channel.sent) + r.out && channel.pending == r.left)
  {
    var client := new Client();
    status := Drive(client, channel, args, defaults, loginAt, infoAt, logoutAt, lines);
  }
}
