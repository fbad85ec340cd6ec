/**
 * The SUBACK variable header (section 3.9.2 of MQTT 3.1.1): a 2-byte
 * big-endian packet identifier.
 */
module Suback {
  import opened Types
  import opened Status
  import opened Codec

  datatype Suback = Suback(packetIdentifier: u16)

  /** `Suback::from_bytes`: fewer than 2 bytes is a partial result asking for
      the missing 1 or 2 bytes; otherwise the identifier is read with
      `parse_u16`, 2 bytes are consumed and anything after them is ignored. */
  function FromBytes(bytes: seq<byte>): (r: Result<Status<(nat, Suback)>>)
    ensures r.Ok? && NoZeroPartial(r)
    ensures r.value.Partial? <==> |bytes| < 2
    ensures r.value.Partial? ==> r.value.needed == 2 - |bytes| && 1 <= r.value.needed <= 2
    ensures r.value.Complete? ==>
              r.value.item == (2, Suback(BigEndian(bytes[0], bytes[1])))
  {
    if |bytes| < 2 then Ok(Partial(2 - |bytes|))
    else
      var offset := 0;
      // The length check above leaves `read!` no partial result to return early with.
      var (offset, packetIdentifier) := Read(ParseU16, bytes, offset).value.item;
      Ok(Complete((offset, Suback(packetIdentifier))))
  }

  /** `packet_identifier`: the stored identifier. */
  function PacketIdentifier(s: Suback): (id: u16)
    ensures Suback(id) == s
  {
    s.packetIdentifier
  }

  /** The identifier's own big-endian bytes decode to it, and what follows
      them is not looked at. */
  lemma FromBytesOfIdentifier(id: u16, rest: seq<byte>)
    ensures FromBytes(U16Bytes(id) + rest) == Ok(Complete((2, Suback(id))))
    ensures PacketIdentifier(FromBytes(U16Bytes(id) + rest).value.item.1) == id
  {
  }

  /** Only the first two bytes matter. */
  lemma FromBytesIgnoresTrailing(bytes: seq<byte>, rest: seq<byte>)
    requires |bytes| >= 2
    ensures FromBytes(bytes + rest) == FromBytes(bytes)
  {
  }

  /** `[0x00, 0x05]` is identifier 5; `[0x00]` asks for one more byte. */
  lemma Examples()
    ensures FromBytes([0x00, 0x05]) == Ok(Complete((2, Suback(5))))
    ensures FromBytes([0x00]) == Ok(Partial(1))
    ensures FromBytes([]) == Ok(Partial(2))
  {
  }
}
