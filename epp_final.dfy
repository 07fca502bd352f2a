/** BNDDEV-EPP/epp_final.py: an EPP client object whose reader returns
    whatever payload it gathered, a greeting that must name the KNET server,
    result codes found by substring search, and a `main` choosing between an
    automatic run, a single domain:info and an interactive loop. */
module EppFinal {
  import opened Wire
  import opened Text
  import opened Net
  import opened Readers
  import opened Commands
  import Transport

  // ------------------------------------------------------------ templates

  /** The fixed text of the script's XML commands, cut where the values go;
      the transaction identifier pieces end with their prefix
      (CLI-LOGIN-, CLI-DOMINFO-, CLI-LOGOUT-). */
  datatype FinalXml = FinalXml(
    loginHead: string, loginPw: string, loginTrid: string, loginTail: string,
    infoHead: string, infoTrid: string, infoTail: string,
    logoutHead: string, logoutTail: string)

  const Templates := FinalXml(
    Prolog + "<command>\n<login>\n<clID>",
    "</clID>\n<pw>",
    "</pw>\n<options>\n<version>1.0</version>\n<lang>en</lang>\n</options>\n<svcs>\n"
    + "<objURI>urn:ietf:params:xml:ns:domain-1.0</objURI>\n"
    + "<objURI>urn:ietf:params:xml:ns:contact-1.0</objURI>\n"
    + "<objURI>urn:ietf:params:xml:ns:host-1.0</objURI>\n</svcs>\n</login>\n<clTRID>CLI-LOGIN-",
    "</clTRID>\n</command>\n</epp>",
    Prolog + "<command>\n<info>\n<domain:info xmlns:domain=\"urn:ietf:params:xml:ns:domain-1.0\">\n<domain:name>",
    "</domain:name>\n</domain:info>\n</info>\n<clTRID>CLI-DOMINFO-",
    "</clTRID>\n</command>\n</epp>",
    Prolog + "<command>\n<logout/>\n<clTRID>CLI-LOGOUT-",
    "</clTRID>\n</command>\n</epp>")

  /** `login`; `now` is `int(time.time())`. */
  function LoginXml(x: FinalXml, c: Credentials, now: nat): string
  {
    x.loginHead + c.clID + x.loginPw + c.pw + x.loginTrid + Decimal(now) + x.loginTail
  }

  function DomainInfoXml(x: FinalXml, domain: string, now: nat): string
  {
    x.infoHead + domain + x.infoTrid + Decimal(now) + x.infoTail
  }

  function LogoutXml(x: FinalXml, now: nat): string
  {
    x.logoutHead + Decimal(now) + x.logoutTail
  }

  /** The text a greeting must contain for `connect` to succeed,
      "KNET Co.,Ltd. EPP Server", as the ASCII bytes searched for. */
  const Marker: seq<byte> := [75, 78, 69, 84, 32, 67, 111, 46, 44, 76, 116, 100, 46, 32, 69, 80, 80, 32,
                              83, 101, 114, 118, 101, 114]

  /** The domain of the automatic run and of a domain:info without one. */
  const DefaultDomain := "xn--j11av3u.xn--hxt814e"

  // ------------------------------------------------------------- exchange

  /** What one `send_command` does: the reply it returns (None for no
      reply), the bytes it writes and the segments left. */
  datatype Reply = Reply(response: Option<seq<byte>>, out: seq<byte>, left: seq<seq<byte>>)

  /** `send_command(text)` on a socket that is `open` with `p` pending:
      nothing is written when the frame cannot be built or the socket is
      closed; otherwise the frame is written and one frame read leniently,
      and an empty or missing reply is reported as None. */
  function Sent(open: bool, p: seq<seq<byte>>, text: string): (r: Reply)
    requires Segmented(p)
    ensures Segmented(r.left)
    ensures r.response.Some? ==> r.response.value != []
  {
    var m := Transport.Message(text);
    if m.None? || !open then Reply(None, [], p)
    else
      var r := ReadLenient(true, p);
      Reply(if r.result.Some? && r.result.value != [] then r.result else None, m.value, r.left)
  }

  /** `response and code in response`. */
  predicate Answered(response: Option<seq<byte>>, code: seq<byte>): (b: bool)
    ensures b ==> response.Some? && |code| <= |response.value|
  {
    response.Some? && Contains(response.value, code)
  }

  /** `connect` after the handshake: true when a non-empty greeting that
      names the KNET server was read. */
  function Greeted(open: bool, p: seq<seq<byte>>): (g: Read<bool>)
    requires Segmented(p)
    ensures Segmented(g.left)
  {
    var r := ReadLenient(open, p);
    Read(r.result.Some? && r.result.value != [] && Contains(r.result.value, Marker), r.left)
  }

  /** A greeting accepted by `connect` is a whole frame's payload that
      contains the marker: a peer that sends the marker in one frame is
      accepted, and a peer that sends nothing is not. */
  lemma GreetingAccepted(p: seq<seq<byte>>, greeting: seq<byte>, after: seq<byte>)
    requires Segmented(p) && p != [] && |p[0]| >= 4
    requires |greeting| + 4 < U32Bound && Flatten(p) == Frame.Encode(greeting).value + after
    ensures Greeted(true, p).result <==> Contains(greeting, Marker)
    ensures Greeted(true, []).result == false
  {
    LenientRoundTrip(p, greeting, after);
    if greeting == [] {
      ContainsNonEmpty(greeting, Marker);
    }
  }

  /** Nothing contains a non-empty needle when it is empty. */
  lemma ContainsNonEmpty(hay: seq<byte>, needle: seq<byte>)
    requires hay == [] && needle != []
    ensures !Contains(hay, needle)
  {
  }

  // --------------------------------------------------------------- client

  class Client {
    /** The XML texts the methods send. */
    const xml: FinalXml
    /** The TLS socket, None until `connect` got as far as the handshake. */
    var sock: Socket?
    /** True once a greeting naming the server was read; cleared by `close`. */
    var connected: bool

    ghost predicate Valid()
      reads this, sock
    {
      sock != null ==> sock.Valid()
    }

    constructor ()
      ensures Valid() && sock == null && !connected && xml == Templates
    {
      xml := Templates;
      sock := null;
      connected := false;
    }

    /** `read_message`: any exception (no socket, a closed socket) gives
        None, as does a header chunk of other than four bytes. */
    method ReadMessage() returns (r: Option<seq<byte>>)
      requires Valid()
      modifies sock
      ensures Valid()
      ensures sock == null ==> r == None
      ensures sock != null ==> (
        && Read(r, sock.pending) == ReadLenient(sock.open, old(sock.pending))
        && sock.sent == old(sock.sent) && sock.open == old(sock.open))
    {
      if sock == null {
        return None;
      }
      r := ReadLenientFrame(sock);
    }

    /** `connect`: `channel` is the socket the handshake produced, null when
        loading the certificate, the TCP connect or the handshake failed.
        `connected` is set only when the greeting names the server; a
        missing or other greeting returns False and leaves it as it was. */
    method Connect(channel: Socket?) returns (ok: bool)
      requires Valid() && (channel != null ==> channel.Valid())
      modifies this, channel
      ensures Valid()
      ensures channel == null ==> !ok && sock == old(sock)
      ensures channel != null ==> (
        var g := Greeted(channel.open, old(channel.pending));
        && sock == channel && ok == g.result && channel.pending == g.left
        && channel.sent == old(channel.sent) && channel.open == old(channel.open))
      ensures connected == (ok || old(connected))
    {
      if channel == null {
        return false;
      }
      sock := channel;
      var greeting := ReadMessage();
      if greeting.Some? && greeting.value != [] {
        if Contains(greeting.value, Marker) {
          connected := true;
          return true;
        }
        return false;
      }
      return false;
    }

    /** `send_command`: write one frame, read one frame; None on any
        exception and when the reply is None or empty. */
    method SendCommand(text: string) returns (response: Option<seq<byte>>)
      requires Valid()
      modifies sock
      ensures Valid()
      ensures sock == null ==> response == None
      ensures sock != null ==> (
        var r := Sent(sock.open, old(sock.pending), text);
        response == r.response && sock.sent == old(sock.sent) + r.out && sock.pending == r.left
        && sock.open == old(sock.open))
    {
      if sock == null {
        return None;
      }
      var written := Transport.WriteFrame(sock, text);
      if written.Err? {
        return None;
      }
      var reply := ReadMessage();
      if reply.Some? && reply.value != [] {
        return reply;
      }
      return None;
    }

    /** `login`: True exactly when the reply contains "1000". There is no
        `connected` guard. */
    method Login(c: Credentials, now: nat) returns (ok: bool)
      requires Valid()
      modifies sock
      ensures Valid()
      ensures sock == null ==> !ok
      ensures sock != null ==> (
        var r := Sent(sock.open, old(sock.pending), LoginXml(xml, c, now));
        ok == Answered(r.response, Code1000) && sock.sent == old(sock.sent) + r.out && sock.pending == r.left
        && sock.open == old(sock.open))
    {
      var response := SendCommand(LoginXml(xml, c, now));
      ok := response.Some? && Contains(response.value, Code1000);
    }

    /** `domain_info`: True exactly when a non-empty reply came back. */
    method DomainInfo(domain: string, now: nat) returns (ok: bool)
      requires Valid()
      modifies sock
      ensures Valid()
      ensures sock == null ==> !ok
      ensures sock != null ==> (
        var r := Sent(sock.open, old(sock.pending), DomainInfoXml(xml, domain, now));
        ok == r.response.Some? && sock.sent == old(sock.sent) + r.out && sock.pending == r.left
        && sock.open == old(sock.open))
    {
      var response := SendCommand(DomainInfoXml(xml, domain, now));
      ok := response.Some?;
    }

    /** `logout`: True exactly when the reply contains "1500". It does not
        close the socket. */
    method Logout(now: nat) returns (ok: bool)
      requires Valid()
      modifies sock
      ensures Valid()
      ensures sock == null ==> !ok
      ensures sock != null ==> (
        var r := Sent(sock.open, old(sock.pending), LogoutXml(xml, now));
        ok == Answered(r.response, Code1500) && sock.sent == old(sock.sent) + r.out && sock.pending == r.left
        && sock.open == old(sock.open))
    {
      var response := SendCommand(LogoutXml(xml, now));
      ok := response.Some? && Contains(response.value, Code1500);
    }

    /** `close`: with a socket, close it and clear `connected`; without one,
        nothing happens. */
    method Close()
      requires Valid()
      modifies this`connected, sock
      ensures Valid()
      ensures sock != null ==> (
        && !sock.open && !connected
        && sock.sent == old(sock.sent) && sock.pending == old(sock.pending))
      ensures sock == null ==> connected == old(connected)
    {
      if sock != null {
        sock.Close();
        connected := false;
      }
    }

    /** The first of the remaining `lines`: `quit`/`exit` ends the loop
        (true) with nothing sent or read, anything else is handled as
        `FinalDialogue` says. */
    method Turn(lines: seq<FinalLine>) returns (leave: bool)
      requires Valid() && sock != null && sock.open && lines != []
      modifies sock
      ensures Valid() && sock.open
      ensures leave <==> ParseFinalLine(lines[0].text) == Leave
      ensures leave ==> FinalDialogue(xml, lines, old(sock.pending)) == Dialogue([], old(sock.pending), true)
      ensures leave ==> sock.sent == old(sock.sent) && sock.pending == old(sock.pending)
      ensures !leave ==> (
        var rest := FinalDialogue(xml, lines[1..], sock.pending);
        var whole := FinalDialogue(xml, lines, old(sock.pending));
        && sock.sent + rest.out == old(sock.sent) + whole.out
        && rest.left == whole.left && rest.quit == whole.quit)
    {
      var command := ParseFinalLine(lines[0].text);
      if command == Leave {
        return true;
      }
      if command.Info? {
        ghost var r := Sent(true, sock.pending, DomainInfoXml(xml, command.domain, lines[0].at));
        var _ := DomainInfo(command.domain, lines[0].at);
        ghost var d := FinalDialogue(xml, lines[1..], r.left);
        AppendAssoc(old(sock.sent), r.out, d.out);
      }
      return false;
    }

    /** The interactive loop of `main`: one line per prompt until `quit` or
        `exit` (true) or the end of input (false), as `FinalDialogue`
        says. */
    method Interact(lines: seq<FinalLine>) returns (quit: bool)
      requires Valid() && sock != null && sock.open
      modifies sock
      ensures Valid() && sock.open
      ensures var d := FinalDialogue(xml, lines, old(sock.pending));
        sock.sent == old(sock.sent) + d.out && sock.pending == d.left && quit == d.quit
    {
      var rest := lines;
      while rest != []
        invariant Valid() && sock.open
        invariant var d := FinalDialogue(xml, rest, sock.pending);
          var whole := FinalDialogue(xml, lines, old(sock.pending));
          && sock.sent + d.out == old(sock.sent) + whole.out
          && d.left == whole.left && d.quit == whole.quit
        decreases |rest|
      {
        var leave := Turn(rest);
        if leave {
          return true;
        }
        rest := rest[1..];
      }
      return false;
    }
  }

  // ---------------------------------------------------------- interactive

  /** A line typed at the prompt and `int(time.time())` while it is
      handled. */
  datatype FinalLine = FinalLine(text: string, at: nat)

  datatype FinalCommand = Leave | Info(domain: string) | InfoUsage | Unrecognised

  /** The dispatch of the interactive loop on `input().strip()`. */
  function ParseFinalLine(raw: string): (c: FinalCommand)
    ensures c.Info? ==> c.domain != [] && NoSpace(c.domain)
  {
    var cmd := Strip(raw);
    if Lower(cmd) == "quit" || Lower(cmd) == "exit" then Leave
    else if InfoCommand <= cmd then
      var parts := Words(cmd);
      if |parts| > 1 then Info(parts[1]) else InfoUsage
    else Unrecognised
  }

  /** `quit` and `exit` end the loop in any letter case and with any
      whitespace around them. */
  lemma LeaveAnyCase(before: string, word: string, after: string)
    requires AllSpace(before) && AllSpace(after)
    requires Lower(word) == "quit" || Lower(word) == "exit"
    ensures ParseFinalLine(before + word + after) == Leave
  {
    assert Lower(word)[0] != ' ' && Lower(word)[3] != ' ';
    StripPadded(before, word, after);
  }

  /** The domain asked for is the second word of the line, whatever the
      first word is after "domain:info" and whatever follows the second. */
  lemma InfoSecondWord(head: string, name: string, rest: string)
    requires InfoCommand <= head && NoSpace(head)
    requires name != [] && NoSpace(name)
    requires rest == [] || (IsSpace(rest[0]) && !IsSpace(rest[|rest| - 1]))
    ensures ParseFinalLine(head + " " + name + rest) == Info(name)
  {
    var line := head + " " + name + rest;
    InfoLineStripped(head, name, rest);
    NotLeaveWord(line);
    SecondWord(head, name, rest);
    AppendAssoc(head, " " + name, rest);
    AppendAssoc(head, " ", name);
    PrefixOfAppend(head, " " + name + rest);
  }

  /** A line that neither starts nor ends with whitespace strips to itself. */
  lemma InfoLineStripped(head: string, name: string, rest: string)
    requires head != [] && NoSpace(head) && name != [] && NoSpace(name)
    requires rest == [] || !IsSpace(rest[|rest| - 1])
    ensures Strip(head + " " + name + rest) == head + " " + name + rest
  {
    var line := head + " " + name + rest;
    assert line[|line| - 1] == if rest == [] then name[|name| - 1] else rest[|rest| - 1];
    assert !IsSpace(line[0]);
    StripStripped(line);
  }

  /** Nothing longer than four characters lower-cases to `quit` or `exit`. */
  lemma NotLeaveWord(s: string)
    requires |s| > 4
    ensures Lower(s) != "quit" && Lower(s) != "exit"
  {
    assert |Lower(s)| > 4;
  }

  /** The text that starts a domain:info line. */
  const InfoCommand := "domain:info"

  /** A line of one word starting with "domain:info" prints the usage and
      sends nothing. */
  lemma InfoWithoutName(head: string)
    requires InfoCommand <= head && NoSpace(head)
    ensures ParseFinalLine(head) == InfoUsage
  {
    StripStripped(head);
    WordsCons(head, []);
    assert head + [] == head;
  }

  /** The loop on an open socket: `quit`/`exit` stop it (true), the end of
      input stops it (false); `domain:info <name>` is one exchange; the
      other lines send nothing. */
  function FinalDialogue(x: FinalXml, lines: seq<FinalLine>, p: seq<seq<byte>>): (d: Dialogue)
    requires Segmented(p)
    ensures Segmented(d.left)
  {
    if lines == [] then Dialogue([], p, false)
    else
      var c := ParseFinalLine(lines[0].text);
      if c == Leave then Dialogue([], p, true)
      else if c.Info? then
        var r := Sent(true, p, DomainInfoXml(x, c.domain, lines[0].at));
        var d := FinalDialogue(x, lines[1..], r.left);
        Dialogue(r.out + d.out, d.left, d.quit)
      else FinalDialogue(x, lines[1..], p)
  }

  /** What the loop wrote, the segments left, and whether it was left by
      `quit`/`exit` rather than by the end of input. */
  datatype Dialogue = Dialogue(out: seq<byte>, left: seq<seq<byte>>, quit: bool)

  /** The frames the lines make the client write: one per `domain:info`
      with a name, up to the first `quit`/`exit`. */
  function FinalFrames(x: FinalXml, lines: seq<FinalLine>): seq<seq<byte>>
  {
    if lines == [] then []
    else
      var c := ParseFinalLine(lines[0].text);
      if c == Leave then []
      else
        var f := if c.Info? && Transport.Message(DomainInfoXml(x, c.domain, lines[0].at)).Some?
                 then [Transport.Message(DomainInfoXml(x, c.domain, lines[0].at)).value] else [];
        f + FinalFrames(x, lines[1..])
  }

  /** `k` lenient frame reads in a row. */
  function LenientReads(p: seq<seq<byte>>, k: nat): (q: seq<seq<byte>>)
    requires Segmented(p)
    ensures Segmented(q)
    decreases k
  {
    if k == 0 then p else LenientReads(ReadLenient(true, p).left, k - 1)
  }

  lemma {:induction false} LenientReadsAdd(p: seq<seq<byte>>, j: nat, k: nat)
    requires Segmented(p)
    ensures LenientReads(p, j + k) == LenientReads(LenientReads(p, j), k)
    decreases j
  {
    if j > 0 {
      LenientReadsAdd(ReadLenient(true, p).left, j - 1, k);
    }
  }

  /** What the loop writes depends on the typed lines alone, never on the
      server's replies, and it reads exactly one frame per frame it
      writes. */
  lemma {:induction false} FinalDialogueShape(x: FinalXml, lines: seq<FinalLine>, p: seq<seq<byte>>)
    requires Segmented(p)
    ensures var d := FinalDialogue(x, lines, p);
      d.out == Flatten(FinalFrames(x, lines)) && d.left == LenientReads(p, |FinalFrames(x, lines)|)
  {
    if lines != [] {
      var c := ParseFinalLine(lines[0].text);
      if c != Leave {
        var f := if c.Info? && Transport.Message(DomainInfoXml(x, c.domain, lines[0].at)).Some?
                 then [Transport.Message(DomainInfoXml(x, c.domain, lines[0].at)).value] else [];
        var q := if c.Info? then Sent(true, p, DomainInfoXml(x, c.domain, lines[0].at)).left else p;
        assert q == LenientReads(p, |f|);
        FinalDialogueShape(x, lines[1..], q);
        FlattenAppend(f, FinalFrames(x, lines[1..]));
        LenientReadsAdd(p, |f|, |FinalFrames(x, lines[1..])|);
        if f != [] {
          assert Flatten(f) == f[0] + Flatten([]);
        }
      }
    }
  }

  // ------------------------------------------------------------------ main

  datatype Mode = Auto | DomInfo(domain: string) | Help | Interactive

  /** `main`'s choice of mode from `sys.argv` (the script's name first). */
  function FinalMode(argv: seq<string>): (m: Mode)
    ensures m == Interactive <==> |argv| <= 1
    ensures m == Auto <==> |argv| > 1 && argv[1] == "auto"
    ensures m.DomInfo? <==> |argv| > 1 && argv[1] != "auto" && "domain:info" <= argv[1]
    ensures m.DomInfo? ==> m.domain == (if |argv| > 2 then argv[2] else DefaultDomain)
  {
    if |argv| > 1 then
      if argv[1] == "auto" then Auto
      else if "domain:info" <= argv[1] then DomInfo(if |argv| > 2 then argv[2] else DefaultDomain)
      else Help
    else Interactive
  }

  /** How `main` ends: the usage text, no connection, a refused login, a
      session that sent its logout, or the end of input in the interactive
      loop (EOFError escapes `main` after the socket is closed). */
  datatype Ending = Usage | NoConnection | LoginRefused | Finished | EndOfInput

  /** The end of a run, what it wrote, the segments it left, and whether it
      closed the socket. */
  datatype FinalOutcome = FinalOutcome(ending: Ending, out: seq<byte>, left: seq<seq<byte>>, closed: bool)

  datatype Session = Session(ending: Ending, out: seq<byte>, left: seq<seq<byte>>)

  /** What `main` does after a successful login, on an open socket with `p`
      pending. */
  function FinalSession(x: FinalXml, mode: Mode, p: seq<seq<byte>>,
                        infoAt: nat, logoutAt: nat, lines: seq<FinalLine>): (s: Session)
    requires Segmented(p) && mode != Help
    ensures Segmented(s.left)
  {
    if mode.Interactive? then
      var d := FinalDialogue(x, lines, p);
      if d.quit then
        var bye := Sent(true, d.left, LogoutXml(x, logoutAt));
        Session(Finished, d.out + bye.out, bye.left)
      else Session(EndOfInput, d.out, d.left)
    else
      var domain := if mode.Auto? then DefaultDomain else mode.domain;
      var info := Sent(true, p, DomainInfoXml(x, domain, infoAt));
      var bye := Sent(true, info.left, LogoutXml(x, logoutAt));
      Session(Finished, info.out + bye.out, bye.left)
  }

  /** `main` on a socket that is `open` with `p` pending. */
  function FinalRun(x: FinalXml, argv: seq<string>, defaults: Credentials, open: bool, p: seq<seq<byte>>,
                    loginAt: nat, infoAt: nat, logoutAt: nat, lines: seq<FinalLine>): (r: FinalOutcome)
    requires Segmented(p)
    ensures Segmented(r.left)
  {
    var mode := FinalMode(argv);
    if mode == Help then FinalOutcome(Usage, [], p, false)
    else
      var g := Greeted(open, p);
      if !g.result then FinalOutcome(NoConnection, [], g.left, false)
      else
        var login := Sent(true, g.left, LoginXml(x, defaults, loginAt));
        if !Answered(login.response, Code1000) then FinalOutcome(LoginRefused, login.out, login.left, true)
        else
          var s := FinalSession(x, mode, login.left, infoAt, logoutAt, lines);
          FinalOutcome(s.ending, login.out + s.out, s.left, true)
  }

  /** The greeting is read before anything is written; the socket is closed
      exactly when the greeting was accepted, and then the login frame is
      the first thing written; a run without an accepted login writes
      nothing after the login. */
  lemma FinalRunOrder(x: FinalXml, argv: seq<string>, defaults: Credentials, p: seq<seq<byte>>,
                      loginAt: nat, infoAt: nat, logoutAt: nat, lines: seq<FinalLine>)
    requires Segmented(p)
    ensures var r := FinalRun(x, argv, defaults, true, p, loginAt, infoAt, logoutAt, lines);
      && (r.closed <==> FinalMode(argv) != Help && Greeted(true, p).result)
      && (!r.closed ==> r.out == [])
      && (r.closed ==> Transport.Message(LoginXml(x, defaults, loginAt)).Some? ==>
            Transport.Message(LoginXml(x, defaults, loginAt)).value <= r.out)
      && (r.ending == LoginRefused ==> r.out == Sent(true, Greeted(true, p).left, LoginXml(x, defaults, loginAt)).out)
  {
  }

  /** After a login, the domain modes send the domain:info and then the
      logout, and nothing else, whether or not the domain:info is
      answered. */
  lemma DomainModesSendInfoThenLogout(x: FinalXml, mode: Mode, p: seq<seq<byte>>,
                                      infoAt: nat, logoutAt: nat, lines: seq<FinalLine>)
    requires Segmented(p) && (mode.Auto? || mode.DomInfo?)
    ensures var domain := if mode.Auto? then DefaultDomain else mode.domain;
      var info := Transport.Message(DomainInfoXml(x, domain, infoAt));
      var bye := Transport.Message(LogoutXml(x, logoutAt));
      info.Some? && bye.Some? ==>
        FinalSession(x, mode, p, infoAt, logoutAt, lines).out == info.value + bye.value
  {
  }

  /** The part of `main` after a successful login. */
  method RunSession(client: Client, mode: Mode, infoAt: nat, logoutAt: nat, lines: seq<FinalLine>)
    returns (ending: Ending)
    requires client.Valid() && client.sock != null && client.sock.open && mode != Help
    modifies client.sock
    ensures client.Valid()
    ensures var s := FinalSession(client.xml, mode, old(client.sock.pending), infoAt, logoutAt, lines);
      && ending == s.ending
      && client.sock.sent == old(client.sock.sent) + s.out && client.sock.pending == s.left
  {
    ghost var sent0 := client.sock.sent;
    if mode.Interactive? {
      ghost var d := FinalDialogue(client.xml, lines, client.sock.pending);
      var quit := client.Interact(lines);
      if !quit {
        return EndOfInput;
      }
      ghost var bye := Sent(true, d.left, LogoutXml(client.xml, logoutAt));
      var _ := client.Logout(logoutAt);
      AppendAssoc(sent0, d.out, bye.out);
      return Finished;
    }
    var domain := if mode.Auto? then DefaultDomain else mode.domain;
    ghost var info := Sent(true, client.sock.pending, DomainInfoXml(client.xml, domain, infoAt));
    ghost var bye := Sent(true, info.left, LogoutXml(client.xml, logoutAt));
    var _ := client.DomainInfo(domain, infoAt);
    var _ := client.Logout(logoutAt);
    AppendAssoc(sent0, info.out, bye.out);
    return Finished;
  }

  /** `main` once the mode is chosen and the client object exists:
      connect (nothing is closed when that fails), log in, run the session,
      and close in every case after a successful connect. */
  method Drive(client: Client, channel: Socket?, argv: seq<string>, defaults: Credentials,
               loginAt: nat, infoAt: nat, logoutAt: nat, lines: seq<FinalLine>)
    returns (ending: Ending)
    requires client.Valid() && client.sock == null && FinalMode(argv) != Help
    requires channel != null ==> channel.Valid()
    modifies client, channel
    ensures channel == null ==> ending == NoConnection
    ensures channel != null ==> (
      var r := FinalRun(client.xml, argv, defaults, old(channel.open), old(channel.pending),
                        loginAt, infoAt, logoutAt, lines);
      && ending == r.ending && channel.sent == old(channel.sent) + r.out && channel.pending == r.left
      && channel.open == (old(channel.open) && !r.closed))
  {
    var ok := client.Connect(channel);
    if !ok {
      return NoConnection;
    }
    ghost var sent0 := old(channel.sent);
    ghost var g := Greeted(old(channel.open), old(channel.pending));
    ghost var login := Sent(true, g.left, LoginXml(client.xml, defaults, loginAt));
    ending := LoginRefused;
    ok := client.Login(defaults, loginAt);
    if ok {
      ghost var s := FinalSession(client.xml, FinalMode(argv), login.left, infoAt, logoutAt, lines);
      ending := RunSession(client, FinalMode(argv), infoAt, logoutAt, lines);
      AppendAssoc(sent0, login.out, s.out);
    }
    client.Close();
  }

  /** `main`: choose the mode, build the client, drive it. */
  method Run(channel: Socket?, argv: seq<string>, defaults: Credentials,
             loginAt: nat, infoAt: nat, logoutAt: nat, lines: seq<FinalLine>)
    returns (ending: Ending)
    requires channel != null ==> channel.Valid()
    modifies channel
    ensures channel == null ==> ending == (if FinalMode(argv) == Help then Usage else NoConnection)
    ensures channel != null ==> (
      var r := FinalRun(Templates, argv, defaults, old(channel.open), old(channel.pending),
                        loginAt, infoAt, logoutAt, lines);
      && ending == r.ending && channel.sent == old(channel.sent) + r.out && channel.pending == r.left
      && channel.open == (old(channel.open) && !r.closed))
  {
    if FinalMode(argv) == Help {
      return Usage;
    }
    var client := new Client();
    ending := Drive(client, channel, argv, defaults, loginAt, infoAt, logoutAt, lines);
  }
}
