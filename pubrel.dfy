/** PUBREL (MQTT 3.1.1, section 3.6): the release step of the QoS 2 flow. */
module PubrelCodec {
  import opened Wrappers
  import opened Wire
  import opened ControlPacketType
  import opened Errors
  import opened FixedHeaders
  import opened HeaderGuards

  datatype Pubrel = Pubrel(fixedHeader: FixedHeader, packetId: uint16)

  /** `Pubrel(packetId:)`: the flags nibble of PUBREL is fixed at 2 (section 3.6.1). */
  function Make(packetId: uint16): Pubrel
  {
    Pubrel(FixedHeader(PUBREL, 2, 2), packetId)
  }

  function Encode(p: Pubrel): seq<byte>
  {
    FixedHeaders.Encode(p.fixedHeader) + EncodeUInt16(p.packetId)
  }

  /**
   * `Pubrel(bytes:)`. Bytes 0, 2 and 3 are read without a length check; byte 1 is
   * ignored and the header always records a remaining length of 2.
   */
  function Decode(bytes: seq<byte>): (r: Result<Pubrel, MQTTError>)
    requires |bytes| >= 4
    ensures r.Ok? <==> bytes[0] == 0x62
    ensures r.Ok? ==> r.value == Make(256 * (bytes[2] as int) + bytes[3] as int)
  {
    match CheckTypeAndFlags(bytes[0], PUBREL, PUBREL, 2)
    case Some(reason) => Err(Malformed(reason))
    case None => Ok(Pubrel(FixedHeader(PUBREL, 2, 2), DecodeUInt16(bytes[2], bytes[3])))
  }

  /** A PUBREL with flags other than 2 is rejected, naming 2 as the expected flags. */
  lemma WrongFlagsRejected(bytes: seq<byte>)
    requires |bytes| >= 4 && bytes[0] / 16 == 6 && bytes[0] % 16 != 2
    ensures Decode(bytes) == Err(Malformed(InvalidFlags(2, bytes[0] % 16)))
  {
  }

  /** Byte 1 plays no part in the decode. */
  lemma LengthByteIgnored(bytes: seq<byte>, b: byte)
    requires |bytes| >= 4
    ensures Decode(bytes[1 := b]) == Decode(bytes)
  {
  }

  lemma EncodeLayout(packetId: uint16)
    ensures Encode(Make(packetId)) == [0x62, 0x02, packetId / 256, packetId % 256]
  {
  }

  lemma RoundTrip(packetId: uint16, rest: seq<byte>)
    ensures Decode(Encode(Make(packetId)) + rest) == Ok(Make(packetId))
  {
    EncodeLayout(packetId);
  }

  /** The byte vector of the PUBREL test. */
  lemma Vector()
    ensures Decode([0x62, 0x02, 0x00, 0x01]) == Ok(Make(1))
    ensures Encode(Make(1)) == [0x62, 0x02, 0x00, 0x01]
  {
    EncodeLayout(1);
  }
}
