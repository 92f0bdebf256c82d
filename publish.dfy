/** PUBLISH (MQTT 3.1.1, section 3.3): an application message in either direction. */
module PublishCodec {
  import opened Wrappers
  import opened Wire
  import opened ControlPacketType
  import opened QualityOfService
  import opened Errors
  import opened FixedHeaders
  import opened RemainingLengthDecoding
  import Utf8

  /**
   * The topic name is kept as its UTF-8 bytes. The Swift struct keeps dup, qos and
   * retain both as fields and inside the header's flags.
   */
  datatype Publish = Publish(
    fixedHeader: FixedHeader,
    topicName: seq<byte>,
    packetId: Option<uint16>,
    payload: seq<byte>,
    dup: bool,
    qos: QoS,
    retain: bool)

  /** `dup << 3 | qos << 1 | retain`: three disjoint bit fields (section 3.3.1). */
  function Flags(dup: bool, qos: QoS, retain: bool): (r: byte)
    ensures r < 16
    ensures (r / 8 == 1) == dup && (r % 8) / 2 == QualityOfService.RawValue(qos) && (r % 2 == 1) == retain
  {
    (if dup then 8 else 0) + QualityOfService.RawValue(qos) * 2 + (if retain then 1 else 0)
  }

  function PacketIdBytes(packetId: Option<uint16>): (r: seq<byte>)
  {
    match packetId
    case None => []
    case Some(id) => EncodeUInt16(id)
  }

  /** `PublishVarHeader.encode`: the length-prefixed topic, then the identifier if there is one. */
  function EncodeVariableHeader(topicName: seq<byte>, packetId: Option<uint16>): (r: seq<byte>)
    requires |topicName| < 0x1_0000
    ensures |r| == 2 + |topicName| + (if packetId.Some? then 2 else 0)
  {
    LengthPrefixed(topicName) + PacketIdBytes(packetId)
  }

  /**
   * Both `Publish(topicName:message:...)` builders; a String message is its UTF-8
   * bytes, so they coincide here. The topic length must fit the two-byte prefix.
   */
  function Make(topicName: seq<byte>, message: seq<byte>, packetId: Option<uint16>, duplicate: bool, qos: QoS, retain: bool): (r: Publish)
    requires |topicName| < 0x1_0000
    ensures r.fixedHeader.packetType == PUBLISH
    ensures r.fixedHeader.remainingLength == 2 + |topicName| + (if packetId.Some? then 2 else 0) + |message|
  {
    var flags := Flags(duplicate, qos, retain);
    var varHeader := EncodeVariableHeader(topicName, packetId);
    Publish(FixedHeader(PUBLISH, flags, |varHeader| + |message|), topicName, packetId, message, duplicate, qos, retain)
  }

  function Encode(p: Publish): seq<byte>
    requires |p.topicName| < 0x1_0000
  {
    FixedHeaders.Encode(p.fixedHeader) + EncodeVariableHeader(p.topicName, p.packetId) + p.payload
  }

  /** The topic length field and the topic, plus the identifier when one is expected, are present. */
  predicate FieldsPresent(remaining: seq<byte>, withId: bool)
  {
    |remaining| >= 2 && 2 + DecodeUInt16(remaining[0], remaining[1]) + (if withId then 2 else 0) <= |remaining|
  }

  /**
   * The bytes the decoder reads without a check are there: once the type and
   * QoS checks pass, every length byte, then the topic and the identifier.
   */
  predicate Readable(bytes: seq<byte>)
  {
    && |bytes| >= 1
    && (ControlPacketType.FromRaw(bytes[0] / 16).Some? && QualityOfService.FromRaw((bytes[0] % 16 % 8) / 2).Some? ==>
        && ReadsInBounds(bytes, 1)
        && (RemainingLength(bytes).Ok? ==>
              FieldsPresent(bytes[RemainingLength(bytes).value.length + 1..], (bytes[0] % 16 % 8) / 2 > 0)))
  }

  /** The topic bytes of a frame whose length field and topic are present. */
  function TopicField(bytes: seq<byte>): (r: seq<byte>)
    requires |bytes| >= 1 && RemainingLength(bytes).Ok?
    requires FieldsPresent(bytes[RemainingLength(bytes).value.length + 1..], false)
    ensures |r| < 0x1_0000
  {
    var remaining := bytes[RemainingLength(bytes).value.length + 1..];
    remaining[2..2 + DecodeUInt16(remaining[0], remaining[1])]
  }

  /** The error `PublishVarHeader(topicName:packetId:)` throws for a topic that is not UTF-8. */
  const BadTopic: MQTTError := UnexpectedError("Unable to decode topic name")

  /**
   * `Publish(bytes:)`. The type nibble must be a valid type, but need not be
   * PUBLISH; QoS 3 is rejected; the remaining length is decoded; an identifier
   * is read only for QoS 1 and 2; a topic that is not well-formed UTF-8 is
   * rejected; the payload is everything after the variable header, up to the
   * end of `bytes`.
   */
  function Decode(bytes: seq<byte>): (r: Result<Publish, MQTTError>)
    requires Readable(bytes)
    ensures r.Ok? <==>
      && ControlPacketType.FromRaw(bytes[0] / 16).Some?
      && (bytes[0] % 16 % 8) / 2 != 3
      && RemainingLength(bytes).Ok?
      && Utf8.WellFormed(TopicField(bytes))
    ensures ControlPacketType.FromRaw(bytes[0] / 16).None? ==> r == Err(Malformed(InvalidType(PUBLISH, bytes[0] / 16)))
    ensures ControlPacketType.FromRaw(bytes[0] / 16).Some? && (bytes[0] % 16 % 8) / 2 == 3 ==> r == Err(Malformed(InvalidQoS))
    ensures (&& ControlPacketType.FromRaw(bytes[0] / 16).Some?
             && (bytes[0] % 16 % 8) / 2 != 3
             && RemainingLength(bytes).Ok?
             && !Utf8.WellFormed(TopicField(bytes))) ==> r == Err(BadTopic)
    ensures r.Ok? ==> r.value.topicName == TopicField(bytes)
    ensures r.Ok? ==> r.value.fixedHeader.flags == bytes[0] % 16 == Flags(r.value.dup, r.value.qos, r.value.retain)
    ensures r.Ok? ==> (r.value.packetId.Some? <==> r.value.qos != AtMostOnce)
    ensures r.Ok? ==> |r.value.topicName| < 0x1_0000
  {
    var typeBits := bytes[0] / 16;
    match ControlPacketType.FromRaw(typeBits)
    case None => Err(Malformed(InvalidType(PUBLISH, typeBits)))
    case Some(t) =>
      var flags := bytes[0] % 16;
      var dup := flags / 8 == 1;
      match QualityOfService.FromRaw((flags % 8) / 2)
      case None => Err(Malformed(InvalidQoS))
      case Some(qos) =>
        NibbleFlags(flags);
        var retain := flags % 2 == 1;
        match RemainingLength(bytes)
        case Err(e) => Err(e)
        case Ok(field) =>
          var remaining := bytes[field.length + 1..];
          var topicLen := DecodeUInt16(remaining[0], remaining[1]);
          var topicName := remaining[2..2 + topicLen];
          var packetId :=
            if QualityOfService.RawValue(qos) > 0
            then Some(DecodeUInt16(remaining[2 + topicLen], remaining[3 + topicLen]))
            else None;
          if !Utf8.WellFormed(topicName) then Err(BadTopic) else
          var headerSize := |EncodeVariableHeader(topicName, packetId)|;
          Ok(Publish(FixedHeader(t, flags, field.value), topicName, packetId, remaining[headerSize..], dup, qos, retain))
  }

  /** A flags nibble with a valid QoS is the encoding of the dup, QoS and retain it carries. */
  lemma NibbleFlags(flags: byte)
    requires flags < 16 && QualityOfService.FromRaw((flags % 8) / 2).Some?
    ensures Flags(flags / 8 == 1, QualityOfService.FromRaw((flags % 8) / 2).value, flags % 2 == 1) == flags
  {
    DivModUnique(flags, 2, 4 * (flags / 8) + (flags % 8) / 2, (flags % 8) % 2);
  }

  /** Flags carry dup, QoS and retain in bits 3, 2-1 and 0, and decode back to them. */
  lemma FlagsLayout(dup: bool, qos: QoS, retain: bool)
    ensures FirstByte(PUBLISH, Flags(dup, qos, retain)) == 0x30 + Flags(dup, qos, retain)
    ensures var f := Flags(dup, qos, retain);
      f / 8 == (if dup then 1 else 0) && (f / 2) % 4 == QualityOfService.RawValue(qos) && f % 2 == (if retain then 1 else 0)
  {
    var f := Flags(dup, qos, retain);
    DivModUnique(f, 2, 4 * (f / 8) + (f % 8) / 2, f % 2);
    DivModUnique(f / 2, 4, f / 8, (f % 8) / 2);
  }

  /**
   * Decoding a laid-out frame: header byte 0x30 + flags, the length field, the
   * length-prefixed topic, the identifier bytes and the payload.
   */
  lemma DecodeLayout(flags: byte, remainingLength: nat, topicName: seq<byte>, packetId: Option<uint16>, payload: seq<byte>)
    requires flags < 16 && (flags % 8) / 2 != 3
    requires packetId.Some? <==> (flags % 8) / 2 > 0
    requires |topicName| < 0x1_0000 && Utf8.WellFormed(topicName) && remainingLength < MaxRemainingLength
    ensures var bytes := [0x30 + flags] + VarIntBytes(remainingLength) + (EncodeVariableHeader(topicName, packetId) + payload);
      && Readable(bytes)
      && Decode(bytes) == Ok(Publish(FixedHeader(PUBLISH, flags, remainingLength), topicName, packetId, payload,
                                     flags / 8 == 1, QualityOfService.FromRaw((flags % 8) / 2).value, flags % 2 == 1))
  {
    var body := EncodeVariableHeader(topicName, packetId) + payload;
    var bytes := [0x30 + flags] + VarIntBytes(remainingLength) + body;
    RemainingLengthRoundTrip(0x30 + flags, remainingLength, body);
    SuccessReadsInBounds(bytes);
    var n := |VarIntBytes(remainingLength)|;
    HeaderNibbles(flags);
    assert bytes[n + 1..] == body;
    BodyLayout(topicName, packetId, payload);
    DecodeSteps(bytes, flags, LengthField(remainingLength, n), topicName, packetId, payload);
  }

  /** `Decode` unfolded along its successful path, given what each step reads. */
  lemma DecodeSteps(bytes: seq<byte>, flags: byte, field: LengthField, topicName: seq<byte>, packetId: Option<uint16>, payload: seq<byte>)
    requires |bytes| >= 1 && bytes[0] / 16 == 3 && bytes[0] % 16 == flags && (flags % 8) / 2 != 3
    requires packetId.Some? <==> (flags % 8) / 2 > 0
    requires |topicName| < 0x1_0000 && Utf8.WellFormed(topicName)
    requires RemainingLength(bytes) == Ok(field) && ReadsInBounds(bytes, 1)
    requires var body := bytes[field.length + 1..];
      && |body| >= 2 + |topicName| + |PacketIdBytes(packetId)|
      && DecodeUInt16(body[0], body[1]) == |topicName|
      && body[2..2 + |topicName|] == topicName
      && (packetId.Some? ==> DecodeUInt16(body[2 + |topicName|], body[3 + |topicName|]) == packetId.value)
      && body[|EncodeVariableHeader(topicName, packetId)|..] == payload
    ensures Readable(bytes)
    ensures Decode(bytes) == Ok(Publish(FixedHeader(PUBLISH, flags, field.value), topicName, packetId, payload,
                                        flags / 8 == 1, QualityOfService.FromRaw((flags % 8) / 2).value, flags % 2 == 1))
  {
    assert ControlPacketType.FromRaw(3) == Some(PUBLISH);
  }

  /** The first byte of a PUBLISH splits back into type 3 and its flags. */
  lemma HeaderNibbles(flags: byte)
    requires flags < 16
    ensures (0x30 + flags) / 16 == 3 && (0x30 + flags) % 16 == flags
  {
  }

  /** The variable header and payload read back field by field. */
  lemma BodyLayout(topicName: seq<byte>, packetId: Option<uint16>, payload: seq<byte>)
    requires |topicName| < 0x1_0000
    ensures var body := EncodeVariableHeader(topicName, packetId) + payload;
      && |body| >= 2 + |topicName| + |PacketIdBytes(packetId)|
      && DecodeUInt16(body[0], body[1]) == |topicName|
      && body[2..2 + |topicName|] == topicName
      && (packetId.Some? ==> DecodeUInt16(body[2 + |topicName|], body[3 + |topicName|]) == packetId.value)
      && body[|EncodeVariableHeader(topicName, packetId)|..] == payload
  {
    var body := EncodeVariableHeader(topicName, packetId) + payload;
    assert body == LengthPrefixed(topicName) + (PacketIdBytes(packetId) + payload);
    UInt16RoundTrip(|topicName|);
    if packetId.Some? {
      UInt16RoundTrip(packetId.value);
    }
  }

  /** What `Encode` lays out, in the shape `DecodeLayout` takes. */
  lemma EncodeLayout(p: Publish)
    requires |p.topicName| < 0x1_0000 && p.fixedHeader.packetType == PUBLISH && p.fixedHeader.flags < 16
    ensures Encode(p) == [0x30 + p.fixedHeader.flags] + VarIntBytes(p.fixedHeader.remainingLength)
      + (EncodeVariableHeader(p.topicName, p.packetId) + p.payload)
  {
  }

  /**
   * A built PUBLISH whose identifier is present exactly for QoS 1 and 2 decodes
   * back to itself. Its topic is a String's UTF-8 form, so it is well-formed
   * (`Utf8.EncodedTextWellFormed`).
   */
  lemma RoundTrip(topicName: seq<byte>, message: seq<byte>, packetId: Option<uint16>, duplicate: bool, qos: QoS, retain: bool)
    requires |topicName| < 0x1_0000 && Utf8.WellFormed(topicName)
    requires packetId.Some? <==> qos != AtMostOnce
    requires 2 + |topicName| + 2 + |message| < MaxRemainingLength
    ensures var p := Make(topicName, message, packetId, duplicate, qos, retain);
      Readable(Encode(p)) && Decode(Encode(p)) == Ok(p)
  {
    var p := Make(topicName, message, packetId, duplicate, qos, retain);
    var flags := Flags(duplicate, qos, retain);
    EncodeLayout(p);
    DecodeLayout(flags, p.fixedHeader.remainingLength, topicName, packetId, message);
  }

  /**
   * A QoS 0 PUBLISH built with an identifier loses it: encode writes the two
   * identifier bytes, decode reads none and takes them as the start of the payload.
   */
  lemma QoS0IdentifierBecomesPayload(topicName: seq<byte>, message: seq<byte>, id: uint16)
    requires |topicName| < 0x1_0000 && Utf8.WellFormed(topicName)
    requires 2 + |topicName| + 2 + |message| < MaxRemainingLength
    ensures var p := Make(topicName, message, Some(id), false, AtMostOnce, false);
      && Readable(Encode(p))
      && Decode(Encode(p)) == Ok(p.(packetId := None, payload := EncodeUInt16(id) + message))
  {
    var p := Make(topicName, message, Some(id), false, AtMostOnce, false);
    QoS0Layout(topicName, message, id);
    DecodeLayout(0, p.fixedHeader.remainingLength, topicName, None, EncodeUInt16(id) + message);
    assert QualityOfService.FromRaw(0) == Some(AtMostOnce);
  }

  /** The encoding of a QoS 0 PUBLISH built with an identifier, seen as one without it. */
  lemma QoS0Layout(topicName: seq<byte>, message: seq<byte>, id: uint16)
    requires |topicName| < 0x1_0000
    ensures var p := Make(topicName, message, Some(id), false, AtMostOnce, false);
      Encode(p) == [0x30 + 0] + VarIntBytes(p.fixedHeader.remainingLength)
        + (EncodeVariableHeader(topicName, None) + (EncodeUInt16(id) + message))
  {
    var p := Make(topicName, message, Some(id), false, AtMostOnce, false);
    EncodeLayout(p);
    assert EncodeVariableHeader(topicName, Some(id)) + message
      == EncodeVariableHeader(topicName, None) + (EncodeUInt16(id) + message);
  }

  /** "test/topic" in ASCII. */
  const TestTopic: seq<byte> := [0x74, 0x65, 0x73, 0x74, 0x2f, 0x74, 0x6f, 0x70, 0x69, 0x63]
  /** "hello" in ASCII. */
  const Hello: seq<byte> := [0x68, 0x65, 0x6c, 0x6c, 0x6f]

  /** The byte vector of the QoS 0 PUBLISH tests, in both directions. */
  lemma Vector()
    ensures Encode(Make(TestTopic, Hello, None, false, AtMostOnce, false))
      == [0x30, 0x11, 0x00, 0x0a] + TestTopic + Hello
    ensures Readable([0x30, 0x11, 0x00, 0x0a] + TestTopic + Hello)
    ensures Decode([0x30, 0x11, 0x00, 0x0a] + TestTopic + Hello)
      == Ok(Make(TestTopic, Hello, None, false, AtMostOnce, false))
  {
    VectorLayout();
    AsciiRoundTrip(TestTopic, Hello);
  }

  lemma VectorLayout()
    ensures Encode(Make(TestTopic, Hello, None, false, AtMostOnce, false))
      == [0x30, 0x11, 0x00, 0x0a] + TestTopic + Hello
  {
  }

  /** A QoS 0 PUBLISH with an ASCII topic decodes back to itself. */
  lemma AsciiRoundTrip(topicName: seq<byte>, message: seq<byte>)
    requires |topicName| < 0x1_0000 && forall i :: 0 <= i < |topicName| ==> topicName[i] < 0x80
    requires 2 + |topicName| + 2 + |message| < MaxRemainingLength
    ensures var p := Make(topicName, message, None, false, AtMostOnce, false);
      Readable(Encode(p)) && Decode(Encode(p)) == Ok(p)
  {
    Utf8.AsciiWellFormed(topicName);
    RoundTrip(topicName, message, None, false, AtMostOnce, false);
  }

  /**
   * A PUBLISH frame whose one-byte topic is 0xFF, which no UTF-8 character starts
   * with, is rejected with the topic error.
   */
  lemma NonUtf8TopicRejected()
    ensures Readable([0x30, 0x03, 0x00, 0x01, 0xFF])
    ensures Decode([0x30, 0x03, 0x00, 0x01, 0xFF]) == Err(BadTopic)
  {
    var bytes: seq<byte> := [0x30, 0x03, 0x00, 0x01, 0xFF];
    OneByteLength(bytes);
    assert TopicField(bytes) == [0xFF];
    Utf8.BadLeadByte([0xFF]);
  }
}
