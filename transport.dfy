/** Writing one EPP frame: every script encodes its XML text as UTF-8,
    prefixes the 32-bit total length and hands the result to one `send`. */
module Transport {
  import opened Wire
  import opened Net
  import Frame

  /** The frame that carries `text`, or None when struct.pack would reject
      its length. */
  function Message(text: string): (m: Option<seq<byte>>)
    ensures m.Some? <==> |Utf8(text)| + Frame.HeaderSize < U32Bound
    ensures m.Some? ==> |m.value| == |Utf8(text)| + Frame.HeaderSize
    ensures m.Some? ==> m.value[Frame.HeaderSize..] == Utf8(text)
    ensures m.Some? ==> Frame.DeclaredPayload(m.value[..Frame.HeaderSize]) == |Utf8(text)|
  {
    var payload := Utf8(text);
    if |payload| + Frame.HeaderSize < U32Bound then
      Frame.HeaderAnnouncesPayload(payload);
      Frame.Encode(payload)
    else Frame.Encode(payload)
  }

  /** Encode, pack the length, send. struct.pack raises before anything is
      written; a closed socket raises on the send. */
  method WriteFrame(s: Socket, text: string) returns (r: Result<()>)
    requires s.Valid()
    modifies s`sent
    ensures s.Valid()
    ensures Message(text).None? ==> r == Err(StructError) && s.sent == old(s.sent)
    ensures Message(text).Some? && !s.open ==> r == Err(BadFileDescriptor) && s.sent == old(s.sent)
    ensures Message(text).Some? && s.open ==> r == Ok(()) && s.sent == old(s.sent) + Message(text).value
  {
    var m := Message(text);
    if m.None? {
      return Err(StructError);
    }
    var n := s.Send(m.value);
    if n.Err? {
      return Err(n.fault);
    }
    return Ok(());
  }
}
