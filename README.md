# BNDDEV-EPP client scripts and the Brandshelter GraphQL helpers, in Dafny

This project models the EPP (Extensible Provisioning Protocol) tooling of the
BNDDEV-EPP scripts. It also models the pure helpers of `bs_graphql_cli.py`.

Every script speaks EPP over one TLS connection. Each message is one data
unit as defined in section 4 of RFC 5734: a 32-bit big-endian total length,
which counts its own four header bytes, followed by the XML payload.

## The socket

The socket is `Net.Socket`, a class with three fields that its methods
update in place:

- `pending`: the segments the peer has sent and this end has not read yet;
- `sent`: the log of everything written;
- `open`: false once the socket is closed.

`recv(n)` returns at most `n` bytes of the first pending segment. It returns
nothing only when `n` is 0 or the stream has ended. A property proved for every
segmentation therefore holds for every way the network may split a stream.

## The frame readers

Each script carries its own copy of the frame writer. The copies are
identical, so the model keeps one, `Transport.WriteFrame`. Each script also
carries its own copy of the reader. These copies behave differently, so the
model keeps three readers, all in `Readers`:

- **strict** (`epp_cli.py`, `test_epp.py`): accumulate the payload and fail if
  the stream ends first;
- **lenient** (`epp_final.py`, `epp_test_simple.py`): accumulate, and return
  whatever arrived if the stream ends;
- **single** (`epp_auto.py`, `send_to_tunnel.py`, `test_epp_server.py`): one
  `recv` for the payload.

Each reader is a method with a `while` loop over the socket. It is proved
equal to a function of the pending segments, and lemmas characterise that
function on the byte stream: what it returns, what it leaves, and the round
trip with the writer.

## The scripts

Each script is one module:

- `EppCli` and `EppFinal`: the two `EPPClient` classes, with their
  `socket`/`sock` and `connected` fields, and each script's `main`;
- `EppAuto`, `EppTestSimple`, `SendToTunnel` and `TestEpp`: the one-shot
  scripts;
- `StubServer`: the test server's client handler.

Each `main` is a method whose new socket state (bytes written, segments left,
open or closed) is tied to a specification function of the pending stream.
Lemmas then state what the script promises about that function: the greeting
comes first, one reply is read per command written, and commands are sent
only after a successful login.

## The GraphQL helpers

`BsGraphql` models the GraphQL CLI:

- the display substitution of `$name` placeholders. Each `replace` puts a
  variable's displayed value where its `$name` stands. A name that begins
  another placeholder's name would also be replaced inside it, and the
  script's own names (`first`, `after`, `createdAtGt`) begin no other;
- the request payload;
- the pagination loop, with the server's answers given as a list;
- the `clientNumber` normalisation and the choice of query.

## Where the scripts depart from the usual EPP behaviour

- Truncated payloads:
  - The lenient readers and the single-recv readers can return a truncated
    payload.
  - Only the strict reader refuses one.
- Guards on commands:
  - In `epp_cli.py`, `hello` and `domain_info` have no `connected` guard.
  - In `epp_final.py`, `login` has no `connected` guard.
  - So these can write before a greeting.
- Failed connects: the `connect` methods do not close the socket when the
  connect fails or the greeting is refused (`epp_cli.py:29-98`,
  `epp_final.py:60-105`). Their callers close it: the `finally` of
  `epp_cli.py:369-370` and `epp_test_simple.py:125`.
- Result codes: `_analyze_response` classifies 2xxx codes as success with
  information, although section 3 of RFC 5730 defines them as errors.
  `Commands.ClassifyVersusRfc` states exactly where the two differ.

## Model

| member | source | states |
|---|---|---|
| Wire.Pack32 | BNDDEV-EPP/epp_cli.py:238 | `struct.pack('>I', n)` gives four bytes |
| Wire.Unpack32 | BNDDEV-EPP/epp_cli.py:222 | `struct.unpack('>I', b)` on four bytes gives a value below 2^32 |
| Wire.UnpackPack | BNDDEV-EPP/epp_cli.py:238 | unpacking a packed length gives the length back |
| Wire.PackUnpack | BNDDEV-EPP/epp_cli.py:222 | packing an unpacked header gives the four bytes back, so a header and its value determine each other |
| Wire.Utf8Char | BNDDEV-EPP/epp_cli.py:236 | one character encodes to one to four bytes, and to one byte exactly when it is ASCII |
| Wire.Utf8 | BNDDEV-EPP/epp_cli.py:236 | the encoding of a text is between its length and four times its length |
| Wire.Utf8Append | BNDDEV-EPP/epp_cli.py:236 | encoding a concatenation concatenates the encodings |
| Wire.Utf8Ascii | BNDDEV-EPP/epp_cli.py:236 | an ASCII text encodes to its character codes, one byte each |
| Wire.ContainsFactor | BNDDEV-EPP/epp_final.py:179 | the substring test `needle in hay` holds whenever the needle occurs anywhere in the text |
| Text.Strip | BNDDEV-EPP/epp_cli.py:339 | `str.strip()`: the result sits after the leading whitespace, only whitespace follows it, and it neither starts nor ends with whitespace |
| Text.StripStripped | BNDDEV-EPP/epp_cli.py:339 | text that neither starts nor ends with whitespace strips to itself |
| Text.StripKeepsLast | BNDDEV-EPP/epp_cli.py:349 | text ending in a non-space keeps that character when stripped |
| Text.StripPadded | BNDDEV-EPP/epp_final.py:288 | stripping removes exactly the whitespace around a word |
| Text.Words | BNDDEV-EPP/epp_final.py:292 | `str.split()` gives non-empty words without whitespace |
| Text.WordsSkipSpace | BNDDEV-EPP/epp_final.py:292 | leading whitespace does not change the words |
| Text.WordsCons | BNDDEV-EPP/send_to_tunnel.py:68 | a word followed by whitespace or by nothing is the first word |
| Text.SecondWord | BNDDEV-EPP/send_to_tunnel.py:68-69 | the second word of `head name rest` is `name` |
| Text.WordAfterSpace | BNDDEV-EPP/epp_final.py:292 | a word after one space is the first word |
| Text.WordThenSpace | BNDDEV-EPP/send_to_tunnel.py:68-69 | whitespace after a single word adds no word |
| Text.Lower | BNDDEV-EPP/epp_final.py:289 | `str.lower()` keeps the length and lower-cases exactly the ASCII capitals |
| Text.Decimal | bs_graphql_cli.py:46 | `str(n)` is digits with no leading zero that denote `n` |
| Text.DigitsValueZeros | bs_graphql_cli.py:138 | leading zeros do not change the value of a digit string |
| Text.ZFill | bs_graphql_cli.py:138 | `str.zfill(width)` has the larger of the two lengths, keeps a leading sign in front, and puts only zeros before the original digits |
| Text.ZFillValue | bs_graphql_cli.py:138 | zero-filling a digit string keeps its value |
| Frame.Encode | BNDDEV-EPP/epp_cli.py:234-240 | a frame exists exactly when `len + 4` fits in 32 bits; it is four bytes longer than the payload, its header unpacks to the frame's whole length, and the payload follows unchanged |
| Frame.DeclaredPayload | BNDDEV-EPP/epp_cli.py:222 | the payload length read from a header is `header - 4`, from -4 up to 2^32 - 5 |
| Frame.HeaderAnnouncesPayload | BNDDEV-EPP/epp_cli.py:234-240 | a frame's header announces exactly its payload length and is the packed `len + 4` |
| Net.Chunk | BNDDEV-EPP/epp_cli.py:227 | `recv(n)` returns at most `n` bytes taken from the front of the stream, and nothing only when `n` is 0 or the stream has ended |
| Net.Rest | BNDDEV-EPP/epp_cli.py:227 | after `recv(n)`, the stream still pending is the old stream without the bytes returned |
| Net.ChunkWholeSegment | BNDDEV-EPP/epp_cli.py:227 | a `recv` asking for at least the first segment returns all of it |
| Net.ChunkWithinSegment | BNDDEV-EPP/epp_cli.py:218 | a `recv` asking for no more than the first segment holds returns exactly what it asked for |
| Net.Socket.constructor | BNDDEV-EPP/epp_cli.py:71 | a fresh socket is open, has written nothing and has the peer's segments pending |
| Net.Socket.Recv | BNDDEV-EPP/epp_cli.py:218 | a closed socket raises, a negative size raises, otherwise the next chunk is consumed |
| Net.Socket.Send | BNDDEV-EPP/epp_cli.py:240 | a closed socket raises and writes nothing, otherwise the data is appended to the output |
| Net.Socket.Close | BNDDEV-EPP/epp_cli.py:182 | the socket is closed afterwards |
| Transport.Message | BNDDEV-EPP/epp_cli.py:234-240 | the frame of a text exists exactly when the length fits; it carries the UTF-8 text after a header declaring its length |
| Transport.WriteFrame | BNDDEV-EPP/epp_cli.py:234-240 | writes the whole frame, or nothing when `struct.pack` or the closed socket raises |
| Readers.ReadStrictFrame | BNDDEV-EPP/epp_cli.py:215-232 | `_read_epp_message` as a loop over `recv`, equal to the strict reader function; a closed socket raises |
| Readers.AccumulateStrict | BNDDEV-EPP/epp_cli.py:225-230 | reference definition of the strict payload loop: a payload it returns extends what was held and is exactly the wanted length, and the segments left stay well formed; described by AccumulateStrictStream |
| Readers.ReadStrict | BNDDEV-EPP/epp_cli.py:215-232 | reference definition of `_read_epp_message`: a payload comes only after a whole four-byte header and has exactly the declared length (`header - 4`, or none when that is not positive); described by StrictShortHeader, StrictWholeHeader, StrictAfterHeader, StrictEmptyPayload, StrictWholePayload, StrictTruncatedPayload, StrictRoundTrip and StrictSplitHeaderRejected |
| Readers.AccumulateStrictStream | BNDDEV-EPP/epp_cli.py:225-230 | the payload loop returns the wanted bytes when the stream holds them, and otherwise fails with "closed by server" after draining the stream |
| Readers.StrictShortHeader | BNDDEV-EPP/epp_cli.py:218-220 | the read fails with the short-length error exactly when `recv(4)` does not give four bytes |
| Readers.StrictWholeHeader | BNDDEV-EPP/epp_cli.py:222-230 | after a whole header: the empty payload for a declared total of four or less, the next `header - 4` bytes when present, otherwise failure; a truncated payload is never returned |
| Readers.StrictAfterHeader | BNDDEV-EPP/epp_cli.py:218-225 | after a whole header the reader is the payload loop on the stream without its first four bytes |
| Readers.StrictEmptyPayload | BNDDEV-EPP/epp_cli.py:225-226 | a declared total of four or less gives the empty payload and consumes only the header |
| Readers.StrictWholePayload | BNDDEV-EPP/epp_cli.py:225-230 | a stream holding the declared payload gives exactly those bytes and leaves what follows |
| Readers.StrictTruncatedPayload | BNDDEV-EPP/epp_cli.py:226-229 | a stream ending inside the payload gives "closed by server" and is drained |
| Readers.StrictRoundTrip | BNDDEV-EPP/epp_cli.py:215-240 | reading a written frame gives the original payload back and leaves exactly what followed |
| Readers.StrictSplitHeaderRejected | BNDDEV-EPP/epp_cli.py:218-220 | an intact frame whose header arrives split over two segments is rejected |
| Readers.ReadLenientFrame | BNDDEV-EPP/epp_final.py:107-129 | `read_message` as a loop over `recv`, equal to the lenient reader function; a closed socket gives None |
| Readers.AccumulateLenient | BNDDEV-EPP/epp_final.py:118-125 | reference definition of the lenient payload loop: the result extends what was held and never grows past the wanted length, and the segments left stay well formed; described by AccumulateLenientStream, AccumulateLenientWhole and AccumulateLenientDrained |
| Readers.ReadLenient | BNDDEV-EPP/epp_final.py:107-129 | reference definition of `read_message` (and of epp_test_simple `read_epp_message`): bytes come only from an open socket after a whole four-byte header, and never more than the declared payload; described by LenientShortHeader, LenientWholeHeader, LenientAfterHeader, LenientEmptyPayload, LenientWholePayload, LenientTruncatedPayload and LenientRoundTrip |
| Readers.AccumulateLenientStream | BNDDEV-EPP/epp_final.py:118-123 | the payload loop takes the wanted bytes, or the whole rest of the stream when it ends first |
| Readers.AccumulateLenientWhole | BNDDEV-EPP/epp_final.py:119-123 | when the stream holds every wanted byte the loop takes exactly those |
| Readers.AccumulateLenientDrained | BNDDEV-EPP/epp_final.py:119-123 | when the stream ends first the loop returns everything that was left and drains the stream |
| Readers.LenientShortHeader | BNDDEV-EPP/epp_final.py:111-113 | the reader gives None exactly when `recv(4)` does not give four bytes |
| Readers.LenientWholeHeader | BNDDEV-EPP/epp_final.py:115-125 | after a whole header the reader returns the next min(`header - 4`, available) bytes: never more than declared, and fewer only at the end of the stream |
| Readers.LenientAfterHeader | BNDDEV-EPP/epp_final.py:111-118 | after a whole header the reader is the payload loop on the stream without its first four bytes |
| Readers.LenientEmptyPayload | BNDDEV-EPP/epp_final.py:118-119 | a declared total of four or less gives the empty payload and consumes only the header |
| Readers.LenientWholePayload | BNDDEV-EPP/epp_final.py:118-125 | a stream holding the declared payload gives exactly those bytes and leaves what follows |
| Readers.LenientTruncatedPayload | BNDDEV-EPP/epp_final.py:119-125 | a stream ending inside the payload gives the truncated rest and is drained |
| Readers.LenientRoundTrip | BNDDEV-EPP/epp_final.py:107-142 | reading a written frame gives the original payload back and leaves exactly what followed |
| Readers.TruncatedStreamStrictVersusLenient | BNDDEV-EPP/epp_final.py:119-123 | on a stream that ends inside the payload, the strict reader fails and the lenient one returns the partial bytes |
| Readers.ReadSingle | BNDDEV-EPP/epp_auto.py:29-37 | the single-recv reply read leaves the segments well formed |
| Readers.ReadSingleFrame | BNDDEV-EPP/epp_auto.py:29-37 | the reply read of `send_epp_command` as socket calls, equal to the single-recv reader function; a closed socket raises |
| Readers.SingleReadOnStream | BNDDEV-EPP/epp_auto.py:29-32 | a reply comes only after a four-byte header; it is the next bytes of the stream and at most `header - 4` long |
| Readers.SingleRoundTrip | BNDDEV-EPP/epp_auto.py:20-32 | a frame that arrives in one segment is read back as its payload |
| Readers.SingleSplitPayloadTruncated | BNDDEV-EPP/epp_auto.py:32 | a payload split over two segments is returned truncated |
| Commands.PaddedDigits | BNDDEV-EPP/epp_cli.py:294 | a zero-padded field below 10^width has exactly `width` digits that denote it |
| Commands.Stamp | BNDDEV-EPP/epp_cli.py:294 | reference definition of `strftime('%Y%m%d-%H%M%S')`: at least 15 characters; StampFields places each field |
| Commands.ClTRID | BNDDEV-EPP/epp_cli.py:292-294 | `_generate_clTRID`: "CLI-" followed by the stamp, at least 19 characters; ClTRIDInjective shows different clock readings give different ids |
| Commands.StampFields | BNDDEV-EPP/epp_cli.py:294 | `%Y%m%d-%H%M%S` puts each clock field, as its value, at fixed positions of a 15-character stamp |
| Commands.ClTRIDInjective | BNDDEV-EPP/epp_cli.py:292-294 | a transaction id is "CLI-" and 15 characters, and different clock readings give different ids |
| Commands.CodesEncoded | BNDDEV-EPP/epp_final.py:179 | the byte needles searched for are the UTF-8 of "1000" and "1500" |
| Commands.ClassifyByValue | BNDDEV-EPP/epp_cli.py:280-285 | on four-digit codes: 1xxx is success, 2xxx success with information, and every other code is an error |
| Commands.Classify | BNDDEV-EPP/epp_cli.py:280-285 | `_analyze_response`: an error exactly when the code is empty or starts with neither '1' nor '2'; described by ClassifyByValue and ClassifyVersusRfc |
| Commands.ClassifyVersusRfc | BNDDEV-EPP/epp_cli.py:280-285 | the classification agrees with section 3 of RFC 5730 on every four-digit code except the 2xxx codes |
| EppCli.LoginCarries | BNDDEV-EPP/epp_cli.py:110-128 | the login command contains the login, the password and the transaction id |
| EppCli.OrDefault | BNDDEV-EPP/epp_cli.py:106-108 | `value or default`: the value when it is given and non-empty, otherwise the default |
| EppCli.Exchanged | BNDDEV-EPP/epp_cli.py:186-213 | one `_send_command` leaves the segments well formed |
| EppCli.ExchangeConsumesOneReply | BNDDEV-EPP/epp_cli.py:186-213 | on a stream starting with a reply frame, `_send_command` writes exactly the command's frame, returns True and consumes exactly the reply |
| EppCli.Client.constructor | BNDDEV-EPP/epp_cli.py:21-27 | no socket, not connected |
| EppCli.Client.Connect | BNDDEV-EPP/epp_cli.py:29-98 | the socket is kept after the handshake; `connected` becomes true only once a greeting frame has been read strictly; a failure returns False and leaves `connected` as it was |
| EppCli.Client.SendCommand | BNDDEV-EPP/epp_cli.py:186-213 | one frame written and one frame read; True exactly when both succeeded, whatever the reply says |
| EppCli.Client.Login | BNDDEV-EPP/epp_cli.py:100-131 | refused without writing unless connected; otherwise one exchange of the login with defaulted credentials |
| EppCli.Client.SendCustomCommand | BNDDEV-EPP/epp_cli.py:133-139 | refused without writing unless connected; otherwise one exchange of the given text |
| EppCli.Client.Hello | BNDDEV-EPP/epp_cli.py:141-147 | one exchange of the hello, with no `connected` guard |
| EppCli.Client.DomainInfo | BNDDEV-EPP/epp_cli.py:149-162 | one exchange of the domain:info, with no `connected` guard |
| EppCli.Client.Disconnect | BNDDEV-EPP/epp_cli.py:179-184 | with a socket: closes it and clears `connected`; without one nothing changes |
| EppCli.Client.Logout | BNDDEV-EPP/epp_cli.py:164-177 | one exchange of the logout, then disconnect whatever its result |
| EppCli.Client.Dispatch | BNDDEV-EPP/epp_cli.py:346-360 | hello, `domain:info <name>` and `xml:` make one exchange each; other lines write nothing |
| EppCli.Client.Turn | BNDDEV-EPP/epp_cli.py:339-360 | one turn of the loop does what the dialogue function says for its line |
| EppCli.Client.Finish | BNDDEV-EPP/epp_cli.py:341-345 | `quit` leaves at once, and `logout` exchanges the logout and disconnects |
| EppCli.Client.Interact | BNDDEV-EPP/epp_cli.py:337-367 | the interactive loop writes, reads and closes as the dialogue function of the typed lines says |
| EppCli.ParseCliLine | BNDDEV-EPP/epp_cli.py:339-360 | a `domain:info ` line names a non-empty, stripped domain |
| EppCli.MissingNameUnreachable | BNDDEV-EPP/epp_cli.py:348-353 | the "please give a domain name" branch cannot be reached, because the line was stripped first |
| EppCli.DialogueStep | BNDDEV-EPP/epp_cli.py:346-360 | a line that neither quits nor logs out makes at most one exchange, and the loop goes on |
| EppCli.CliDialogue | BNDDEV-EPP/epp_cli.py:337-367 | reference definition of the interactive loop; its ensures keep the segments left well formed; described by DialogueStep, DialogueStop, DialogueShape and NothingAfterStop, and Client.Interact is proved equal to it |
| EppCli.DialogueStop | BNDDEV-EPP/epp_cli.py:341-345 | `quit` writes nothing, and `logout` makes one exchange and closes |
| EppCli.DialogueShape | BNDDEV-EPP/epp_cli.py:337-367 | what the loop writes depends on the typed lines alone, and it reads exactly one frame per frame written |
| EppCli.NothingAfterStop | BNDDEV-EPP/epp_cli.py:341-345 | nothing typed after `quit` or `logout` has any effect |
| EppCli.CliRun | BNDDEV-EPP/epp_cli.py:296-370 | the run exits with status 0 or 1 |
| EppCli.CliRunGreetingFirst | BNDDEV-EPP/epp_cli.py:312-319 | without a greeting nothing is written and the run fails; a successful run has logged in, and its output starts with the login frame |
| EppCli.RunSession | BNDDEV-EPP/epp_cli.py:321-367 | after the login: with `--domain`, domain:info then logout; otherwise the interactive loop |
| EppCli.Session | BNDDEV-EPP/epp_cli.py:321-367 | reference definition of what `main` does after the login; with a non-empty `--domain` the session ends logged out, and the segments left stay well formed; RunSession and Drive are proved equal to it |
| EppCli.Drive | BNDDEV-EPP/epp_cli.py:312-370 | connect, log in and run the session as the run function says, disconnecting in every case |
| EppCli.Run | BNDDEV-EPP/epp_cli.py:296-370 | `main` with the script's own templates, status 1 when the connect fails |
| EppFinal.Sent | BNDDEV-EPP/epp_final.py:131-154 | a reply `send_command` reports is never empty |
| EppFinal.Answered | BNDDEV-EPP/epp_final.py:179 | `response and code in response`: true only for a reply at least as long as the code; Client.Login and Client.Logout return it |
| EppFinal.Greeted | BNDDEV-EPP/epp_final.py:86-98 | the greeting check leaves the segments well formed |
| EppFinal.GreetingAccepted | BNDDEV-EPP/epp_final.py:87-98 | a greeting frame is accepted exactly when it contains the KNET server marker; an empty stream is refused |
| EppFinal.Client.constructor | BNDDEV-EPP/epp_final.py:43-48 | no socket, not connected |
| EppFinal.Client.ReadMessage | BNDDEV-EPP/epp_final.py:107-129 | None without a socket or on a closed one; otherwise the lenient read |
| EppFinal.Client.Connect | BNDDEV-EPP/epp_final.py:60-105 | `connected` is set only when the greeting names the server; any other outcome returns False and leaves it unchanged |
| EppFinal.Client.SendCommand | BNDDEV-EPP/epp_final.py:131-154 | writes one frame and reads one; None on any failure and for an empty reply |
| EppFinal.Client.Login | BNDDEV-EPP/epp_final.py:156-186 | True exactly when the reply contains "1000", with no `connected` guard |
| EppFinal.Client.DomainInfo | BNDDEV-EPP/epp_final.py:188-206 | True exactly when a non-empty reply came |
| EppFinal.Client.Logout | BNDDEV-EPP/epp_final.py:208-222 | True exactly when the reply contains "1500"; the socket stays open |
| EppFinal.Client.Close | BNDDEV-EPP/epp_final.py:224-228 | with a socket: closes it and clears `connected`; without one nothing changes |
| EppFinal.Client.Turn | BNDDEV-EPP/epp_final.py:288-298 | `quit`/`exit` leave with nothing written; any other line does what the dialogue function says |
| EppFinal.Client.Interact | BNDDEV-EPP/epp_final.py:286-301 | the loop writes and reads as the dialogue function of the typed lines says |
| EppFinal.ParseFinalLine | BNDDEV-EPP/epp_final.py:288-298 | a domain:info line names a non-empty domain without whitespace |
| EppFinal.LeaveAnyCase | BNDDEV-EPP/epp_final.py:289-290 | `quit` and `exit` end the loop in any letter case and with any whitespace around them |
| EppFinal.InfoSecondWord | BNDDEV-EPP/epp_final.py:291-294 | the domain asked for is the line's second word |
| EppFinal.InfoLineStripped | BNDDEV-EPP/epp_final.py:288 | a line that neither starts nor ends with whitespace is unchanged by the strip |
| EppFinal.NotLeaveWord | BNDDEV-EPP/epp_final.py:289 | nothing longer than four characters lower-cases to `quit` or `exit` |
| EppFinal.InfoWithoutName | BNDDEV-EPP/epp_final.py:295-296 | a one-word domain:info line prints the usage and sends nothing |
| EppFinal.FinalDialogueShape | BNDDEV-EPP/epp_final.py:286-301 | what the loop writes depends on the typed lines alone, and it reads exactly one frame per frame written |
| EppFinal.FinalMode | BNDDEV-EPP/epp_final.py:235-245 | no argument gives interactive, `auto` gives auto, a `domain:info…` argument gives dominfo with `argv[2]` or the default domain, and anything else gives help |
| EppFinal.FinalRunOrder | BNDDEV-EPP/epp_final.py:260-307 | the greeting is read before anything is written; the socket is closed exactly when the greeting was accepted; the login frame is written first; a refused login writes nothing more |
| EppFinal.DomainModesSendInfoThenLogout | BNDDEV-EPP/epp_final.py:273-304 | after the login, auto and dominfo write the domain:info frame, then the logout frame, and nothing else, whether or not the domain:info is answered |
| EppFinal.FinalSession | BNDDEV-EPP/epp_final.py:269-304 | reference definition of `main` after the login; its ensures keep the segments left well formed; described by DomainModesSendInfoThenLogout, and RunSession is proved equal to it |
| EppFinal.FinalRun | BNDDEV-EPP/epp_final.py:230-309 | reference definition of `main` on a socket; its ensures keep the segments left well formed; described by FinalRunOrder, and Drive is proved equal to it |
| EppFinal.RunSession | BNDDEV-EPP/epp_final.py:269-304 | after the login: the mode's commands, then the logout |
| EppFinal.Drive | BNDDEV-EPP/epp_final.py:257-307 | connect (closing nothing when that fails), log in, run the session, and close in every case after a connect |
| EppFinal.Run | BNDDEV-EPP/epp_final.py:230-309 | `main` with the script's own templates: usage for help, no connection when the connect fails |
| EppAuto.ExchangeWritesOneFrame | BNDDEV-EPP/epp_auto.py:20-32 | one exchange writes exactly the frame of its text, with header `len + 4`, and reads exactly what the single-recv reader reads |
| EppAuto.AutoExchange | BNDDEV-EPP/epp_auto.py:14-37 | reference definition of `send_epp_command`; its ensures keep the segments left well formed; described by ExchangeWritesOneFrame, and SendCommand is proved equal to it |
| EppAuto.SendCommand | BNDDEV-EPP/epp_auto.py:14-37 | `send_epp_command` on the socket, equal to the exchange function; the socket stays open |
| EppAuto.GreetingIsSingleRead | BNDDEV-EPP/epp_auto.py:65-66 | the greeting read is the single-recv read, except that a short header raises instead of giving None |
| EppAuto.AutoGreeting | BNDDEV-EPP/epp_auto.py:65-66 | reference definition of the greeting read; its ensures keep the segments left well formed; described by GreetingIsSingleRead, and ReadGreeting is proved equal to it |
| EppAuto.ReadGreeting | BNDDEV-EPP/epp_auto.py:65-66 | the greeting read on the socket, equal to its function |
| EppAuto.GreetingBeforeCommands | BNDDEV-EPP/epp_auto.py:63-79 | a greeting that raises ends the run with nothing written; otherwise the login frame is the first thing written |
| EppAuto.AutoRun | BNDDEV-EPP/epp_auto.py:63-95 | reference definition of `main` on a socket; its ensures keep the segments left well formed; described by GreetingBeforeCommands, InfoAndLogoutOnlyAfterSuccess, ClosedOnlyWithoutFault and MissingLoginReplyRaises, and Sequence is proved equal to it |
| EppAuto.InfoAndLogoutOnlyAfterSuccess | BNDDEV-EPP/epp_auto.py:79-89 | the output is a prefix of login, domain:info, logout; it goes past the login only after a reply containing "1000"; a completed run wrote all three |
| EppAuto.AfterLoginWrites | BNDDEV-EPP/epp_auto.py:84-87 | after the login, the domain:info frame comes first, and the logout frame only when the domain:info did not raise |
| EppAuto.AfterLogin | BNDDEV-EPP/epp_auto.py:84-91 | reference definition of the domain:info, logout and close after a successful login; its ensures keep the segments left well formed; described by AfterLoginWrites, and Finish is proved equal to it |
| EppAuto.ClosedOnlyWithoutFault | BNDDEV-EPP/epp_auto.py:91-95 | the socket is closed exactly when no exception ended the run |
| EppAuto.MissingLoginReplyRaises | BNDDEV-EPP/epp_auto.py:79-80 | a login without a reply frame raises TypeError; nothing after the login is written and the socket stays open |
| EppAuto.Finish | BNDDEV-EPP/epp_auto.py:84-91 | domain:info, logout and close on the socket, equal to their function |
| EppAuto.Sequence | BNDDEV-EPP/epp_auto.py:63-95 | the whole sequence on the socket, equal to the run function |
| EppAuto.Run | BNDDEV-EPP/epp_auto.py:39-95 | `main` with the script's own commands; a failed connect ends in the handler |
| StubServer.GreetingFrame | BNDDEV-EPP/test_epp_server.py:11-39 | the greeting frame's header is the big-endian `len + 4` and its body is the greeting's bytes |
| StubServer.OneReplyPerCommand | BNDDEV-EPP/test_epp_server.py:52-86 | every command answered gets exactly one copy of the reply frame, nothing else is written, and each answer consumed a whole four-byte header |
| StubServer.ServeLoop | BNDDEV-EPP/test_epp_server.py:52-91 | reference definition of the command loop; its ensures keep the segments left well formed; described by OneReplyPerCommand and AnswersEveryFrame |
| StubServer.GreetingFirst | BNDDEV-EPP/test_epp_server.py:47-55 | the greeting frame is written before anything else |
| StubServer.Handle | BNDDEV-EPP/test_epp_server.py:41-97 | reference definition of `handle_client`; its ensures keep the segments left well formed; described by GreetingFirst, and HandleClient is proved equal to it |
| StubServer.AnswersEveryFrame | BNDDEV-EPP/test_epp_server.py:52-91 | a client that sends whole command frames gets one reply each, and the loop stops at the end of the stream with everything read |
| StubServer.HandleClient | BNDDEV-EPP/test_epp_server.py:41-97 | the handler loop on the socket, equal to the handler function; the socket is closed in every case |
| StubServer.Serve | BNDDEV-EPP/test_epp_server.py:41-97 | the handler with the server's own greeting and reply |
| EppTestSimple.ReadMessage | BNDDEV-EPP/epp_test_simple.py:37-60 | `read_epp_message` is the lenient reader |
| EppTestSimple.SendMessage | BNDDEV-EPP/epp_test_simple.py:62-75 | True exactly when the frame could be built and sent, and then exactly that frame is written |
| EppTestSimple.LoginOnlyAfterGreeting | BNDDEV-EPP/epp_test_simple.py:87-114 | the login is the only thing written, and it is written exactly when a non-empty greeting came and its frame could be built |
| EppTestSimple.SimpleRun | BNDDEV-EPP/epp_test_simple.py:87-125 | reference definition of `main` after the connect; its ensures keep the segments left well formed; described by LoginOnlyAfterGreeting and AcceptedIffCode1000, and Session is proved equal to it |
| EppTestSimple.LoginTest | BNDDEV-EPP/epp_test_simple.py:114-123 | reference definition of the login test; its ensures keep the segments left well formed; AcceptedIffCode1000 states its verdict inside SimpleRun, and TestLogin is proved equal to it |
| EppTestSimple.AcceptedIffCode1000 | BNDDEV-EPP/epp_test_simple.py:114-123 | the login is reported successful exactly when a greeting came, the login was sent and its reply contains "1000" |
| EppTestSimple.TestLogin | BNDDEV-EPP/epp_test_simple.py:114-123 | the login test on the socket, equal to its function |
| EppTestSimple.Session | BNDDEV-EPP/epp_test_simple.py:87-125 | greeting, login test, then close, whatever happened |
| EppTestSimple.Run | BNDDEV-EPP/epp_test_simple.py:81-125 | no connection reported when the connect fails; otherwise the session, with the socket closed |
| SendToTunnel.InfoDomain | BNDDEV-EPP/send_to_tunnel.py:67-69 | the domain is the default or a non-empty word without whitespace |
| SendToTunnel.FixedTemplates | BNDDEV-EPP/send_to_tunnel.py:50-88 | `login` and `logout` select their fixed templates |
| SendToTunnel.SelectXml | BNDDEV-EPP/send_to_tunnel.py:50-91 | `main`'s choice of XML: anything other than `login`, `logout` or a `domain:info` command is sent as it stands; described by FixedTemplates, InfoNamesDomain, InfoWithoutDomain and OtherwiseVerbatim |
| SendToTunnel.InfoNamesDomain | BNDDEV-EPP/send_to_tunnel.py:67-80 | a domain:info command asks about its second word |
| SendToTunnel.InfoWithoutDomain | BNDDEV-EPP/send_to_tunnel.py:67-69 | a one-word domain:info command asks about the default domain |
| SendToTunnel.OtherwiseVerbatim | BNDDEV-EPP/send_to_tunnel.py:89-91 | any other argument is sent as it stands |
| SendToTunnel.ExchangeOneFrame | BNDDEV-EPP/send_to_tunnel.py:17-34 | exactly the frame of the text is written; a reply comes only after a four-byte header, is the next bytes and at most `header - 4` long; the socket is closed exactly when nothing raised |
| SendToTunnel.Exchange | BNDDEV-EPP/send_to_tunnel.py:9-37 | reference definition of `send_epp_to_tunnel`; its ensures keep the segments left well formed; described by ExchangeOneFrame, and SendToTunnel is proved equal to it |
| SendToTunnel.SendToTunnel | BNDDEV-EPP/send_to_tunnel.py:9-37 | the exchange on the socket, equal to its function |
| SendToTunnel.UsageSendsNothing | BNDDEV-EPP/send_to_tunnel.py:40-45 | without an argument the usage is printed and nothing is written; with one, exactly the frame of the XML it selects is written |
| SendToTunnel.TunnelRun | BNDDEV-EPP/send_to_tunnel.py:39-94 | reference definition of `main`; its ensures keep the segments left well formed; described by UsageSendsNothing, and Run is proved equal to it |
| SendToTunnel.Run | BNDDEV-EPP/send_to_tunnel.py:39-94 | `main` with the script's own templates |
| TestEpp.SuccessIffWholeGreeting | BNDDEV-EPP/test_epp.py:31-52 | the test succeeds exactly when `recv(4)` gives four bytes and the stream holds the whole declared greeting; a truncated greeting fails |
| TestEpp.Tested | BNDDEV-EPP/test_epp.py:31-52 | reference definition of `test_epp_connection` after the handshake; its ensures keep the segments left well formed; described by SuccessIffWholeGreeting, and TestConnection is proved equal to it |
| TestEpp.TestConnection | BNDDEV-EPP/test_epp.py:9-56 | True only after a whole greeting, and the socket is closed only then; a failed connect gives False |
| TestEpp.ExitStatus | BNDDEV-EPP/test_epp.py:59-70 | status 0 exactly when there are two arguments and the test succeeded, otherwise 1 |
| TestEpp.Run | BNDDEV-EPP/test_epp.py:58-70 | a wrong argument count exits with 1 before any connection |
| BsGraphql.IntText | bs_graphql_cli.py:46 | `str(n)`: the decimal digits of the magnitude, with "-" in front of a negative number |
| BsGraphql.ShowRecoversValue | bs_graphql_cli.py:43-46 | the displayed value gives the value back: a string sits between its quotes, and an integer's digits denote its magnitude |
| BsGraphql.Show | bs_graphql_cli.py:43-46 | a value is displayed as a non-empty text that starts with a double quote exactly when the value is a string; ShowRecoversValue gives the value back |
| BsGraphql.ReplaceAbsent | bs_graphql_cli.py:48 | replacing a pattern that does not occur changes nothing |
| BsGraphql.ReplaceAll | bs_graphql_cli.py:48 | reference definition of `str.replace`; a replacement as long as the pattern keeps the length; described by ReplaceAbsent, ReplaceBySelf, ReplaceSkips, ReplaceOccurrence and ReplaceHole |
| BsGraphql.ReplaceBySelf | bs_graphql_cli.py:48 | replacing a pattern by itself changes nothing |
| BsGraphql.NoDollarNoPlaceholder | bs_graphql_cli.py:48 | text without `$` holds no `$name` placeholder |
| BsGraphql.RenderedWithoutPlaceholders | bs_graphql_cli.py:38-49 | a query without `$` is displayed unchanged, whatever the variables |
| BsGraphql.Rendered | bs_graphql_cli.py:38-49 | reference definition of `render_query_with_values`; when every value displays as wide as its placeholder the length is kept; described by RenderedWithoutPlaceholders, RenderedInterleave and RenderedTemplate |
| BsGraphql.ReplaceSkips | bs_graphql_cli.py:48 | text without `$` in front of a `$name` pattern is passed over unchanged |
| BsGraphql.ReplaceOccurrence | bs_graphql_cli.py:48 | the first occurrence of `$name` is replaced by the value and the scan goes on after it |
| BsGraphql.NoMatchAtPlaceholder | bs_graphql_cli.py:48 | `$k` does not match a placeholder whose name does not begin with `k` when a non-name character or the end follows it |
| BsGraphql.ReplaceOtherPlaceholder | bs_graphql_cli.py:48 | a placeholder the pattern does not match is kept as it is |
| BsGraphql.ReplaceHole | bs_graphql_cli.py:48 | a hole becomes the displayed value exactly when it is the pattern |
| BsGraphql.ReplaceStep | bs_graphql_cli.py:48 | over a piece, a hole and the rest, the piece stays, the hole is replaced exactly when it is the pattern, and the rest is replaced on its own |
| BsGraphql.ReplaceInterleave | bs_graphql_cli.py:48 | one `replace` over a query split at its placeholders replaces exactly the placeholders named `k` and keeps every piece |
| BsGraphql.FillOneKeeps | bs_graphql_cli.py:42-48 | a hole is kept or becomes a displayed value |
| BsGraphql.RenderedInterleave | bs_graphql_cli.py:42-48 | the loop over the variables fills the holes one variable after another and keeps every piece |
| BsGraphql.ValueOf | bs_graphql_cli.py:42 | a value is found for a name exactly when some variable has that name, and it is that variable's value |
| BsGraphql.FillPlaceholder | bs_graphql_cli.py:42-48 | `$name` ends up as its variable's displayed value, or stays when no variable has that name |
| BsGraphql.RenderedTemplate | bs_graphql_cli.py:38-49 | the rendered query is the query's pieces around the displayed value of each placeholder's variable, placeholders that are used twice included |
| BsGraphql.RequestVariablesValues | bs_graphql_cli.py:110 | the variables dict has distinct names, and `first`, `after` and `createdAtGt` hold the batch, the cursor (None before the first page) and the date |
| BsGraphql.IntTextNoDollar | bs_graphql_cli.py:46 | an integer is displayed without `$` |
| BsGraphql.QuotedNoDollar | bs_graphql_cli.py:44 | a string without `$` is displayed without `$` |
| BsGraphql.RequestVariablesShown | bs_graphql_cli.py:43-46 | a request's variables have GraphQL names and are displayed without `$` when the cursor and date hold none |
| BsGraphql.CallPiecesDelimited | bs_graphql_cli.py:83 | the monitorings call's pieces hold no `$` and end the names before them, and no variable's name begins another's |
| BsGraphql.DisplaysRequest | bs_graphql_cli.py:43-48 | `$first`, `$after` and `$createdAtGt` display as the batch, the quoted cursor or `None`, and the quoted date |
| BsGraphql.RenderedMonitoringsCall | bs_graphql_cli.py:83-110 | the verbose display of the monitorings call shows the batch, the cursor and the date in place of their placeholders |
| BsGraphql.RenderQueryWithValues | bs_graphql_cli.py:38-49 | the loop over the variables gives the rendered query, and the query itself when there are no variables |
| BsGraphql.BuildPayload | bs_graphql_cli.py:61-63 | the query is sent as written, and a "variables" key is present exactly when there are variables |
| BsGraphql.PaginateTotal | bs_graphql_cli.py:111-131 | at most one request per answer plus one, and `total` sums the nodes of the answers used; the loop ends in an exception, and never prints the total, exactly when the answer to its last request is one that crashes |
| BsGraphql.PaginateWithoutCrash | bs_graphql_cli.py:111-131 | when no answer crashes, the loop ends normally and the total is printed |
| BsGraphql.Batch | bs_graphql_cli.py:104-110 | the batch is `min(100, limit - total)` with a limit and 100 without |
| BsGraphql.Paginate | bs_graphql_cli.py:99-129 | reference definition of the `while True` loop: the total never goes down, no request is made exactly when the limit is already reached, and the first request asks for the batch at the starting cursor; described by PaginateTotal, PaginateWithoutCrash, PaginateFirstCursor, PaginateCursorAt, PaginateCursors, PaginateBatchAt, PaginateBatches and PaginateWithinLimit |
| BsGraphql.PaginateFirstCursor | bs_graphql_cli.py:100 | the first request carries the starting cursor |
| BsGraphql.PaginateCursorAt | bs_graphql_cli.py:127-129 | each request after the first carries the endCursor of the page before it, a page that came, said it had a next page and left the total under the limit |
| BsGraphql.PaginateCursors | bs_graphql_cli.py:100-129 | the requests are chained by cursor, and the loop goes on only after a page with a next page that left the total under the limit |
| BsGraphql.PaginateBatchAt | bs_graphql_cli.py:104-111 | one request's batch is `min(100, limit - total)` for the nodes received before it, or 100 without a limit, and is positive |
| BsGraphql.PaginateBatches | bs_graphql_cli.py:104-111 | every request's batch is that size and between 1 and 100, so no request is made once the limit is reached |
| BsGraphql.PaginateWithinLimit | bs_graphql_cli.py:104-128 | when the server never sends more nodes than were asked for, the total never exceeds the limit |
| BsGraphql.PaginateMonitorings | bs_graphql_cli.py:77-131 | the `while True` loop makes exactly the requests, reaches exactly the total, and ends in an exception exactly when, the pagination function says |
| BsGraphql.CreatedAfter | bs_graphql_cli.py:79-80 | the filter given, or today's date when none or an empty one was given |
| BsGraphql.NormalizeValue | bs_graphql_cli.py:137-138 | values of other fields, and client numbers of eight characters or more, are unchanged |
| BsGraphql.ShortClientNumber | bs_graphql_cli.py:137-138 | a short client number becomes ten digits of the same value followed by "-1" |
| BsGraphql.Kind | bs_graphql_cli.py:140-181 | the `domains` query exactly for the three domain fields |
| BsGraphql.QueryCustom | bs_graphql_cli.py:134-182 | the query kind follows the field, the field is kept, and only client numbers have their value changed |
| BsGraphql.ClientNumberUsesUsers | bs_graphql_cli.py:137-181 | client numbers are looked up with `userSafebrands` |
| BsGraphql.Dispatch | bs_graphql_cli.py:197-203 | `--monitorings` comes first; then a field and a value, both non-empty; otherwise the usage |

## Left out

- TLS: the certificate loading, context options and handshake are one step
  that gives a socket or fails. Each `Run` takes that step's result, a socket
  or null.
- Socket timeouts, `getpeername` and `settimeout` are not modelled.
- Partial sends are not modelled: `send` writes everything it is given.
- UTF-8 decoding of replies is not modelled. Payloads are kept as bytes.
  The substring tests for "1000", "1500" and the KNET marker search the bytes
  for the UTF-8 of the needle, which is the same test on valid UTF-8.
- StubServer.ServeLoop: the test server decodes each command as UTF-8
  (`test_epp_server.py:63`). An invalid command raises there and ends the loop
  with no reply (`test_epp_server.py:89-91`). The model answers every command,
  so StubServer.AnswersEveryFrame holds in the source only for commands that
  are valid UTF-8.
- Readers.ReadLenient and Readers.ReadSingle: a reply cut short can end inside
  a multi-byte character, and then `.decode` raises. `epp_final.py:125` and
  `epp_test_simple.py:56` then return None from their handlers. In
  `epp_auto.py:32` and `send_to_tunnel.py:30` the raise goes to the caller's
  handler. The model returns the cut bytes.
- Replies are not parsed as XML. Neither `ElementTree` nor `minidom` is
  modelled, and neither is the pretty-printing.
- Commands.Classify: takes the result code as an already extracted string.
- Credentials and the clock are parameters:
  - the login and password of the login commands;
  - `datetime.now()` (a `DateTime`);
  - `int(time.time())` (a number).
- Templates:
  - Each script's XML text is a record of fixed pieces, with the script's own
    text in its `Templates` constant.
  - The session properties are stated for any texts.
- HTTP and output:
  - `requests.post`, `get_token`/`make_headers` and the `.env` lookup are not
    modelled; what a call gives the pagination loop is one of its answers.
  - All `rich` and ANSI printing is not modelled.
- BsGraphql.PaginateMonitorings:
  - The server's answers are a finite list, and running out of answers counts
    as a call that gave no data.
  - An exception that escapes a call is one `Crash` answer. That covers
    `requests.post` or `make_headers` raising, after which the handler reads
    the unbound `resp` (`bs_graphql_cli.py:73`). It also covers a reply whose
    `data`, `monitoringsSafebrands` or `pageInfo` is null, or whose `nodes` is
    null (`bs_graphql_cli.py:116-123`). The model records that the loop ended
    in an exception without printing the total; the traceback is not modelled.
  - A server that reports a next page forever is not modelled.
  - The `strftime` date of today is a parameter.
- BsGraphql.Rendered: a variables dict of None is treated as empty.
- Argument parsing: `argparse` is not modelled. The parsed options are
  parameters.
- `int(sys.argv[2])` in `test_epp.py` is not modelled: a non-numeric port
  raising ValueError.
- Interrupts: `KeyboardInterrupt` in the interactive loops is not modelled.
  - In `epp_cli.py`, an `EOFError` ends the loop, and the end of the typed
    lines models it.
  - In `epp_final.py`, the end of input lets `EOFError` escape after the close.
- The threaded accept loop of `test_epp_server.py` (`main`) is not modelled.
  Only `handle_client` on one client socket is modelled.
- Text.Lower: lower-cases only ASCII letters. The scripts compare its result
  only with ASCII words, so no other character matters there.
- BNDDEV-EPP/python_tunnel.py is not part of this model: it is
  thread-per-direction relaying.
- BNDDEV-EPP/test_connectivity.py is not part of this model: it is a single
  connect probe.
- BNDDEV-8478-find-rdap-client/rdap2whoisd.py is not part of this model: it is
  a socket server around an external binary.
