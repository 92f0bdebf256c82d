/** PINGREQ (MQTT 3.1.1, section 3.12): a bare fixed header. */
module PingreqCodec {
  import opened Wire
  import opened ControlPacketType
  import opened FixedHeaders

  datatype Pingreq = Pingreq(fixedHeader: FixedHeader)

  /** `Pingreq()`: it takes no arguments, so every PINGREQ is this one value. */
  const Default: Pingreq := Pingreq(FixedHeader(PINGREQ, 0, 0))

  function Encode(p: Pingreq): seq<byte>
  {
    FixedHeaders.Encode(p.fixedHeader)
  }

  lemma EncodeLayout()
    ensures Encode(Default) == [0xC0, 0x00]
  {
  }
}

/** PINGRESP (MQTT 3.1.1, section 3.13): the server's answer to PINGREQ. */
module PingrespCodec {
  import opened Wrappers
  import opened Wire
  import opened ControlPacketType
  import opened Errors
  import opened FixedHeaders

  datatype Pingresp = Pingresp(fixedHeader: FixedHeader)

  /** `Pingresp()`. */
  const Default: Pingresp := Pingresp(FixedHeader(PINGRESP, 0, 0))

  function Encode(p: Pingresp): seq<byte>
  {
    FixedHeaders.Encode(p.fixedHeader)
  }

  /**
   * `Pingresp(bytes:)`: only byte 0 is read. Any valid type nibble is accepted and
   * recorded in the header; flags and remaining length are forced to 0.
   */
  function Decode(bytes: seq<byte>): (r: Result<Pingresp, MQTTError>)
    requires |bytes| >= 1
    ensures r.Ok? <==> 1 <= bytes[0] / 16 <= 14
    ensures r.Ok? ==> RawValue(r.value.fixedHeader.packetType) == bytes[0] / 16
    ensures r.Ok? ==> r.value.fixedHeader.flags == 0 && r.value.fixedHeader.remainingLength == 0
    ensures r.Err? ==> r.error == Malformed(InvalidType(PINGRESP, bytes[0] / 16))
  {
    match FromRaw(bytes[0] / 16)
    case None => Err(Malformed(InvalidType(PINGRESP, bytes[0] / 16)))
    case Some(t) => Ok(Pingresp(FixedHeader(t, 0, 0)))
  }

  lemma EncodeLayout()
    ensures Encode(Default) == [0xD0, 0x00]
  {
  }

  /** Decoding the encoding gives back PINGRESP, whatever follows it. */
  lemma RoundTrip(rest: seq<byte>)
    ensures Decode(Encode(Default) + rest) == Ok(Default)
  {
  }

  /** The decoder does not insist on PINGRESP: a PUBACK first byte decodes too. */
  lemma AcceptsOtherTypes()
    ensures Decode([0x40, 0x02, 0x00, 0x01]) == Ok(Pingresp(FixedHeader(PUBACK, 0, 0)))
  {
  }
}

/** DISCONNECT (MQTT 3.1.1, section 3.14): a bare fixed header. */
module DisconnectCodec {
  import opened Wire
  import opened ControlPacketType
  import opened FixedHeaders

  datatype Disconnect = Disconnect(fixedHeader: FixedHeader)

  /** `Disconnect()`: it takes no arguments, so every DISCONNECT is this one value. */
  const Default: Disconnect := Disconnect(FixedHeader(DISCONNECT, 0, 0))

  function Encode(p: Disconnect): seq<byte>
  {
    FixedHeaders.Encode(p.fixedHeader)
  }

  lemma EncodeLayout()
    ensures Encode(Default) == [0xE0, 0x00]
  {
  }
}
