/** PUBCOMP (MQTT 3.1.1, section 3.7): the last step of the QoS 2 flow. */
module PubcompCodec {
  import opened Wrappers
  import opened Wire
  import opened ControlPacketType
  import opened Errors
  import opened FixedHeaders
  import opened HeaderGuards

  datatype Pubcomp = Pubcomp(fixedHeader: FixedHeader, packetId: uint16)

  /** `Pubcomp(packetId:)`. */
  function Make(packetId: uint16): Pubcomp
  {
    Pubcomp(FixedHeader(PUBCOMP, 0, 2), packetId)
  }

  /** The fixed header, then the packet identifier high byte first. */
  function Encode(p: Pubcomp): seq<byte>
  {
    FixedHeaders.Encode(p.fixedHeader) + EncodeUInt16(p.packetId)
  }

  /**
   * `Pubcomp(bytes:)`. Bytes 0 to 3 are read without a length check, so a caller must
   * supply four bytes. Byte 1 is copied into the header as the remaining length
   * without being checked.
   */
  function Decode(bytes: seq<byte>): (r: Result<Pubcomp, MQTTError>)
    requires |bytes| >= 4
    ensures r.Ok? <==> bytes[0] == 0x70
    ensures r.Ok? ==> r.value.packetId == 256 * (bytes[2] as int) + bytes[3] as int
    ensures r.Ok? ==> r.value.fixedHeader.remainingLength == bytes[1]
    ensures r.Ok? && bytes[1] < 128 ==> Encode(r.value) == bytes[..4]
  {
    match CheckTypeAndFlags(bytes[0], PUBCOMP, PUBCOMP, 0)
    case Some(reason) => Err(Malformed(reason))
    case None => Ok(Pubcomp(FixedHeader(PUBCOMP, 0, bytes[1]), DecodeUInt16(bytes[2], bytes[3])))
  }

  /** `Pubcomp(packetId:)` encodes to 0x70 0x02 and the identifier, high byte first. */
  lemma EncodeLayout(packetId: uint16)
    ensures Encode(Make(packetId)) == [0x70, 0x02, packetId / 256, packetId % 256]
  {
  }

  /** Any PUBCOMP whose remaining length fits in one byte survives encode then decode. */
  lemma RoundTrip(p: Pubcomp, rest: seq<byte>)
    requires p.fixedHeader.packetType == PUBCOMP && p.fixedHeader.flags == 0
    requires p.fixedHeader.remainingLength < 128
    ensures Decode(Encode(p) + rest) == Ok(p)
  {
    var bytes := Encode(p) + rest;
    assert bytes[..4] == Encode(p);
  }

  /** The byte vector of the PUBCOMP test. */
  lemma Vector()
    ensures Decode([0x70, 0x02, 0x00, 0x01]) == Ok(Make(1))
    ensures Encode(Make(1)) == [0x70, 0x02, 0x00, 0x01]
  {
    EncodeLayout(1);
  }
}
