/** BNDDEV-EPP/test_epp.py: a connection test that succeeds only when a
    whole greeting frame is read, closing the socket only then, and exits
    with status 1 on a wrong argument count or a failed test. */
module TestEpp {
  import opened Wire
  import opened Net
  import opened Readers
  import Frame

  /** `test_epp_connection` after the handshake, on a socket with `p`
      pending: True exactly when the strict reader returns a greeting. */
  function Tested(p: seq<seq<byte>>): (r: Read<bool>)
    requires Segmented(p)
    ensures Segmented(r.left)
  {
    var g := ReadStrict(p);
    Read(g.result.Ok?, g.left)
  }

  /** The test succeeds exactly when the first `recv(4)` gives four bytes
      and the stream then holds the whole declared payload (none needed
      for a declared total of four or less); a truncated greeting fails. */
  lemma SuccessIffWholeGreeting(p: seq<seq<byte>>)
    requires Segmented(p)
    ensures Tested(p).result <==>
      var f := Flatten(p);
      |Chunk(p, 4)| == 4 && Frame.DeclaredPayload(f[..4]) <= |f| - 4
  {
    StrictShortHeader(p);
    if |Chunk(p, 4)| == 4 {
      StrictWholeHeader(p);
    }
  }

  /** `test_epp_connection(server, port)`: `channel` is the TLS socket,
      null when the TCP connect or the handshake failed. */
  method TestConnection(channel: Socket?) returns (success: bool)
    requires channel != null ==> channel.Valid() && channel.open
    modifies channel
    ensures channel == null ==> !success
    ensures channel != null ==> (
      var t := Tested(old(channel.pending));
      && success == t.result && channel.pending == t.left && channel.sent == old(channel.sent)
      && channel.open == !success)
  {
    if channel == null {
      return false;
    }
    var greeting := ReadStrictFrame(channel);
    if greeting.Err? {
      return false;
    }
    channel.Close();
    return true;
  }

  /** The script's exit status: 1 for other than two arguments (before
      any connection), 1 for a failed test, 0 otherwise. */
  function ExitStatus(argv: seq<string>, success: bool): (code: int)
    ensures code == 0 <==> |argv| == 3 && success
    ensures code == 0 || code == 1
  {
    if |argv| != 3 then 1 else if success then 0 else 1
  }

  /** The script's top level; `sys.argv` has the script's name first. */
  method Run(argv: seq<string>, channel: Socket?) returns (code: int)
    requires channel != null ==> channel.Valid() && channel.open
    modifies channel
    ensures |argv| != 3 ==> code == 1 && (channel != null ==> unchanged(channel))
    ensures |argv| == 3 && channel == null ==> code == 1
    ensures |argv| == 3 && channel != null ==> (
      var t := Tested(old(channel.pending));
      && code == ExitStatus(argv, t.result) && channel.pending == t.left
      && channel.sent == old(channel.sent) && channel.open == !t.result)
  {
    if |argv| != 3 {
      return 1;
    }
    var success := TestConnection(channel);
    code := ExitStatus(argv, success);
  }
}
