/** SUBSCRIBE (MQTT 3.1.1, section 3.8): a list of topic filters, each with a requested QoS. */
module SubscribeCodec {
  import opened Wrappers
  import opened Wire
  import opened ControlPacketType
  import opened QualityOfService
  import opened FixedHeaders

  /** A topic filter (kept as its UTF-8 bytes) and the QoS asked for. */
  datatype TopicFilter = TopicFilter(topic: seq<byte>, qos: QoS)

  predicate Fits(filters: seq<TopicFilter>)
  {
    forall i :: 0 <= i < |filters| ==> |filters[i].topic| < 0x1_0000
  }

  /** One entry of the payload: the length-prefixed filter, then its QoS byte. */
  function FilterBytes(f: TopicFilter): (r: seq<byte>)
    requires |f.topic| < 0x1_0000
    ensures |r| == 2 + |f.topic| + 1
  {
    LengthPrefixed(f.topic) + [QualityOfService.RawValue(f.qos)]
  }

  /** The payload: every filter's entry, in list order (section 3.8.3). */
  function PayloadBytes(filters: seq<TopicFilter>): seq<byte>
    requires Fits(filters)
  {
    if filters == [] then [] else FilterBytes(filters[0]) + PayloadBytes(filters[1..])
  }

  /** Appending a filter appends its entry: the step the encoding loop takes. */
  lemma {:induction false} PayloadBytesAppend(filters: seq<TopicFilter>, f: TopicFilter)
    requires Fits(filters) && |f.topic| < 0x1_0000
    ensures Fits(filters + [f])
    ensures PayloadBytes(filters + [f]) == PayloadBytes(filters) + FilterBytes(f)
    decreases |filters|
  {
    if filters != [] {
      assert (filters + [f])[1..] == filters[1..] + [f];
      PayloadBytesAppend(filters[1..], f);
    }
  }

  /** `SubscribePayload.encode`: the for-loop over the filters. */
  method EncodePayload(topics: seq<TopicFilter>) returns (data: seq<byte>)
    requires Fits(topics)
    ensures data == PayloadBytes(topics)
  {
    data := [];
    for i := 0 to |topics|
      invariant data == PayloadBytes(topics[..i])
    {
      var topicFilter := topics[i];
      data := data + EncodeUInt16(|topicFilter.topic|);
      data := data + topicFilter.topic;
      data := data + [QualityOfService.RawValue(topicFilter.qos)];
      PayloadBytesAppend(topics[..i], topicFilter);
      assert topics[..i + 1] == topics[..i] + [topicFilter];
    }
    assert topics[..|topics|] == topics;
  }

  /** Total payload size: two length bytes, the filter and the QoS byte per entry. */
  function EntriesSize(filters: seq<TopicFilter>): nat
  {
    if filters == [] then 0 else 2 + |filters[0].topic| + 1 + EntriesSize(filters[1..])
  }

  lemma {:induction false} PayloadSize(filters: seq<TopicFilter>)
    requires Fits(filters)
    ensures |PayloadBytes(filters)| == EntriesSize(filters)
    decreases |filters|
  {
    if filters != [] {
      PayloadSize(filters[1..]);
    }
  }

  /**
   * Reads a payload back as a server does: entries until the bytes run out, each
   * a length-prefixed filter and a QoS byte of 0, 1 or 2.
   */
  function ParsePayload(bytes: seq<byte>): Option<seq<TopicFilter>>
    decreases |bytes|
  {
    if bytes == [] then Some([])
    else match ReadLengthPrefixed(bytes)
      case None => None
      case Some((topic, rest)) =>
        if rest == [] then None
        else match QualityOfService.FromRaw(rest[0])
          case None => None
          case Some(qos) =>
            match ParsePayload(rest[1..])
            case None => None
            case Some(more) => Some([TopicFilter(topic, qos)] + more)
  }

  lemma {:induction false} PayloadRoundTrip(filters: seq<TopicFilter>)
    requires Fits(filters)
    ensures ParsePayload(PayloadBytes(filters)) == Some(filters)
    decreases |filters|
  {
    if filters != [] {
      var f := filters[0];
      var tail := [QualityOfService.RawValue(f.qos)] + PayloadBytes(filters[1..]);
      assert PayloadBytes(filters) == LengthPrefixed(f.topic) + tail;
      LengthPrefixedRoundTrip(f.topic, tail);
      QoSRoundTrip(f.qos);
      assert tail[1..] == PayloadBytes(filters[1..]);
      PayloadRoundTrip(filters[1..]);
      assert [TopicFilter(f.topic, f.qos)] + filters[1..] == filters;
    }
  }

  datatype Subscribe = Subscribe(fixedHeader: FixedHeader, packetId: uint16, topics: seq<TopicFilter>)

  /**
   * `Subscribe(packetId:topics:)`: the identifier defaults to 1, the flags nibble
   * is 0b0010 (section 3.8.1), and the remaining length covers identifier and payload.
   */
  function Make(topics: seq<TopicFilter>, packetId: uint16 := 1): (r: Subscribe)
    requires Fits(topics)
    ensures r.fixedHeader.remainingLength == 2 + EntriesSize(topics)
  {
    PayloadSize(topics);
    Subscribe(FixedHeader(SUBSCRIBE, 2, |EncodeUInt16(packetId)| + |PayloadBytes(topics)|), packetId, topics)
  }

  function Encode(s: Subscribe): seq<byte>
    requires Fits(s.topics)
  {
    FixedHeaders.Encode(s.fixedHeader) + EncodeUInt16(s.packetId) + PayloadBytes(s.topics)
  }

  /** Reads a whole SUBSCRIBE frame back: first byte 0x82, identifier, filters. */
  function Parse(bytes: seq<byte>): Option<Subscribe>
  {
    match SplitFrame(bytes)
    case None => None
    case Some((first, body)) =>
      if first != 0x82 || |body| < 2 then None
      else match ParsePayload(body[2..])
        case None => None
        case Some(topics) => Some(Subscribe(FixedHeader(SUBSCRIBE, 2, |body|), DecodeUInt16(body[0], body[1]), topics))
  }

  /** Every SUBSCRIBE the builder makes is read back intact. */
  lemma RoundTrip(topics: seq<TopicFilter>, packetId: uint16)
    requires Fits(topics) && 2 + EntriesSize(topics) < MaxRemainingLength
    ensures Parse(Encode(Make(topics, packetId))) == Some(Make(topics, packetId))
  {
    var s := Make(topics, packetId);
    var body := EncodeUInt16(packetId) + PayloadBytes(topics);
    PayloadSize(topics);
    assert Encode(s) == FixedHeaders.Encode(s.fixedHeader) + body;
    SplitFrameRoundTrip(s.fixedHeader, body);
    assert FirstByte(SUBSCRIBE, 2) == 0x82;
    assert body[0] == EncodeUInt16(packetId)[0] && body[1] == EncodeUInt16(packetId)[1];
    UInt16RoundTrip(packetId);
    assert body[2..] == PayloadBytes(topics);
    PayloadRoundTrip(topics);
    ParseSteps(Encode(s), body, packetId, topics);
  }

  /** `Parse` unfolded: the successful path through its checks. */
  lemma ParseSteps(bytes: seq<byte>, body: seq<byte>, packetId: uint16, topics: seq<TopicFilter>)
    requires SplitFrame(bytes) == Some((0x82, body)) && |body| >= 2
    requires DecodeUInt16(body[0], body[1]) == packetId && ParsePayload(body[2..]) == Some(topics)
    ensures Parse(bytes) == Some(Subscribe(FixedHeader(SUBSCRIBE, 2, |body|), packetId, topics))
  {
  }

  /** "test/topic" in ASCII. */
  const TestTopic: seq<byte> := [0x74, 0x65, 0x73, 0x74, 0x2f, 0x74, 0x6f, 0x70, 0x69, 0x63]

  /** The byte vector of the SUBSCRIBE test: one filter "test/topic" at QoS 0, default identifier. */
  lemma Vector()
    ensures Encode(Make([TopicFilter(TestTopic, AtMostOnce)]))
      == [0x82, 0x0f, 0x00, 0x01, 0x00, 0x0a] + TestTopic + [0x00]
  {
    var topics := [TopicFilter(TestTopic, AtMostOnce)];
    assert PayloadBytes(topics) == [0x00, 0x0a] + TestTopic + [0x00] by {
      assert topics[1..] == [];
    }
  }
}
