/** The EPP data unit of section 4 of RFC 5734 as every script builds it:
    a 32-bit big-endian total length that counts its own four header bytes,
    then the payload. */
module Frame {
  import opened Wire

  const HeaderSize: nat := 4

  /** `struct.pack('>I', len(payload) + 4) + payload`. struct.pack raises
      when the total does not fit in 32 bits; that is the None case. */
  function Encode(payload: seq<byte>): (r: Option<seq<byte>>)
    ensures r.Some? <==> |payload| + HeaderSize < U32Bound
    ensures r.Some? ==> |r.value| == |payload| + HeaderSize
    ensures r.Some? ==> Unpack32(r.value[..HeaderSize]) == |r.value|
    ensures r.Some? ==> r.value[HeaderSize..] == payload
  {
    if |payload| + HeaderSize < U32Bound then
      var header := Pack32(|payload| + HeaderSize);
      UnpackPack(|payload| + HeaderSize);
      assert (header + payload)[..HeaderSize] == header;
      Some(header + payload)
    else None
  }

  /** The payload length a reader derives from a header:
      `struct.unpack('>I', header)[0] - 4`, negative for a declared total
      below four. */
  function DeclaredPayload(header: seq<byte>): (n: int)
    requires |header| == HeaderSize
    ensures -4 <= n < U32Bound - HeaderSize
  {
    Unpack32(header) - HeaderSize
  }

  /** A frame's header announces exactly its payload, and a header is the
      encoding of the length it announces: header and payload length
      determine each other. */
  lemma HeaderAnnouncesPayload(payload: seq<byte>)
    requires |payload| + HeaderSize < U32Bound
    ensures DeclaredPayload(Encode(payload).value[..HeaderSize]) == |payload|
    ensures Encode(payload).value[..HeaderSize] == Pack32(|payload| + HeaderSize)
  {
    var f := Encode(payload).value;
    PackUnpack(f[..HeaderSize]);
  }
}
