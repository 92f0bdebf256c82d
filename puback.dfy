/** PUBACK (MQTT 3.1.1, section 3.4): the acknowledgement of a QoS 1 PUBLISH. */
module PubackCodec {
  import opened Wrappers
  import opened Wire
  import opened ControlPacketType
  import opened Errors
  import opened FixedHeaders
  import opened HeaderGuards

  datatype Puback = Puback(fixedHeader: FixedHeader, packetId: uint16)

  /** `Puback(packetId:)`. */
  function Make(packetId: uint16): Puback
  {
    Puback(FixedHeader(PUBACK, 0, 2), packetId)
  }

  /** The fixed header, then the packet identifier high byte first. */
  function Encode(p: Puback): seq<byte>
  {
    FixedHeaders.Encode(p.fixedHeader) + EncodeUInt16(p.packetId)
  }

  /**
   * `Puback(bytes:)`. Bytes 0 to 3 are read without a length check, so a caller must
   * supply four bytes. Byte 1 is copied into the header as the remaining length
   * without being checked.
   */
  function Decode(bytes: seq<byte>): (r: Result<Puback, MQTTError>)
    requires |bytes| >= 4
    ensures r.Ok? <==> bytes[0] == 0x40
    ensures r.Ok? ==> r.value.packetId == 256 * (bytes[2] as int) + bytes[3] as int
    ensures r.Ok? ==> r.value.fixedHeader.remainingLength == bytes[1]
    ensures r.Ok? && bytes[1] < 128 ==> Encode(r.value) == bytes[..4]
  {
    match CheckTypeAndFlags(bytes[0], PUBACK, PUBACK, 0)
    case Some(reason) => Err(Malformed(reason))
    case None => Ok(Puback(FixedHeader(PUBACK, 0, bytes[1]), DecodeUInt16(bytes[2], bytes[3])))
  }

  /** `Puback(packetId:)` encodes to 0x40 0x02 and the identifier, high byte first. */
  lemma EncodeLayout(packetId: uint16)
    ensures Encode(Make(packetId)) == [0x40, 0x02, packetId / 256, packetId % 256]
  {
  }

  /** Any PUBACK whose remaining length fits in one byte survives encode then decode. */
  lemma RoundTrip(p: Puback, rest: seq<byte>)
    requires p.fixedHeader.packetType == PUBACK && p.fixedHeader.flags == 0
    requires p.fixedHeader.remainingLength < 128
    ensures Decode(Encode(p) + rest) == Ok(p)
  {
    var bytes := Encode(p) + rest;
    assert bytes[..4] == Encode(p);
  }

  /** The byte vector of the PUBACK test. */
  lemma Vector()
    ensures Decode([0x40, 0x02, 0x00, 0x01]) == Ok(Make(1))
    ensures Encode(Make(1)) == [0x40, 0x02, 0x00, 0x01]
  {
    EncodeLayout(1);
  }
}
