/** UNSUBSCRIBE (MQTT 3.1.1, section 3.10): a list of topic filters to drop. */
module UnsubscribeCodec {
  import opened Wrappers
  import opened Wire
  import opened ControlPacketType
  import opened FixedHeaders

  /** Every topic (kept as its UTF-8 bytes) fits a two-byte length prefix. */
  predicate Fits(topics: seq<seq<byte>>)
  {
    forall i :: 0 <= i < |topics| ==> |topics[i]| < 0x1_0000
  }

  /** The payload: every topic, length-prefixed, in list order. */
  function TopicsBytes(topics: seq<seq<byte>>): seq<byte>
    requires Fits(topics)
  {
    if topics == [] then [] else LengthPrefixed(topics[0]) + TopicsBytes(topics[1..])
  }

  /** Appending a topic appends its entry: the step the encoding loop takes. */
  lemma {:induction false} TopicsBytesAppend(topics: seq<seq<byte>>, t: seq<byte>)
    requires Fits(topics) && |t| < 0x1_0000
    ensures Fits(topics + [t])
    ensures TopicsBytes(topics + [t]) == TopicsBytes(topics) + LengthPrefixed(t)
    decreases |topics|
  {
    if topics != [] {
      assert (topics + [t])[1..] == topics[1..] + [t];
      TopicsBytesAppend(topics[1..], t);
    }
  }

  /** `UnsubscribePayload.encode`: the for-loop over the topics. */
  method EncodePayload(topics: seq<seq<byte>>) returns (bytes: seq<byte>)
    requires Fits(topics)
    ensures bytes == TopicsBytes(topics)
  {
    bytes := [];
    for i := 0 to |topics|
      invariant bytes == TopicsBytes(topics[..i])
    {
      var topicBytes := topics[i];
      var topicLen := EncodeUInt16(|topicBytes|);
      bytes := bytes + topicLen;
      bytes := bytes + topicBytes;
      TopicsBytesAppend(topics[..i], topicBytes);
      assert topics[..i + 1] == topics[..i] + [topicBytes];
    }
    assert topics[..|topics|] == topics;
  }

  /** Total payload size: two length bytes and the topic per entry. */
  function EntriesSize(topics: seq<seq<byte>>): nat
  {
    if topics == [] then 0 else 2 + |topics[0]| + EntriesSize(topics[1..])
  }

  lemma {:induction false} PayloadSize(topics: seq<seq<byte>>)
    requires Fits(topics)
    ensures |TopicsBytes(topics)| == EntriesSize(topics)
    decreases |topics|
  {
    if topics != [] {
      PayloadSize(topics[1..]);
    }
  }

  /** Reads a payload back as a server does: length-prefixed topics until the bytes run out. */
  function ParseTopics(bytes: seq<byte>): Option<seq<seq<byte>>>
    decreases |bytes|
  {
    if bytes == [] then Some([])
    else match ReadLengthPrefixed(bytes)
      case None => None
      case Some((topic, rest)) =>
        match ParseTopics(rest)
        case None => None
        case Some(more) => Some([topic] + more)
  }

  lemma {:induction false} TopicsRoundTrip(topics: seq<seq<byte>>)
    requires Fits(topics)
    ensures ParseTopics(TopicsBytes(topics)) == Some(topics)
    decreases |topics|
  {
    if topics != [] {
      LengthPrefixedRoundTrip(topics[0], TopicsBytes(topics[1..]));
      TopicsRoundTrip(topics[1..]);
      assert [topics[0]] + topics[1..] == topics;
    }
  }

  datatype Unsubscribe = Unsubscribe(fixedHeader: FixedHeader, packetId: uint16, topics: seq<seq<byte>>)

  /**
   * `Unsubscribe(packetId:topics:)`: flags nibble 2 (section 3.10.1), and the
   * remaining length covers the identifier and every length-prefixed topic.
   */
  function Make(packetId: uint16, topics: seq<seq<byte>>): (r: Unsubscribe)
    requires Fits(topics)
    ensures r.fixedHeader == FixedHeader(UNSUBSCRIBE, 2, 2 + EntriesSize(topics))
  {
    PayloadSize(topics);
    Unsubscribe(FixedHeader(UNSUBSCRIBE, 2, |EncodeUInt16(packetId)| + |TopicsBytes(topics)|), packetId, topics)
  }

  function Encode(u: Unsubscribe): seq<byte>
    requires Fits(u.topics)
  {
    FixedHeaders.Encode(u.fixedHeader) + EncodeUInt16(u.packetId) + TopicsBytes(u.topics)
  }

  /** Reads a whole UNSUBSCRIBE frame back: first byte 0xA2, identifier, topics. */
  function Parse(bytes: seq<byte>): Option<Unsubscribe>
  {
    match SplitFrame(bytes)
    case None => None
    case Some((first, body)) =>
      if first != 0xA2 || |body| < 2 then None
      else match ParseTopics(body[2..])
        case None => None
        case Some(topics) => Some(Unsubscribe(FixedHeader(UNSUBSCRIBE, 2, |body|), DecodeUInt16(body[0], body[1]), topics))
  }

  /** Every UNSUBSCRIBE the builder makes is read back intact. */
  lemma RoundTrip(packetId: uint16, topics: seq<seq<byte>>)
    requires Fits(topics) && 2 + EntriesSize(topics) < MaxRemainingLength
    ensures Parse(Encode(Make(packetId, topics))) == Some(Make(packetId, topics))
  {
    var u := Make(packetId, topics);
    var body := EncodeUInt16(packetId) + TopicsBytes(topics);
    PayloadSize(topics);
    assert Encode(u) == FixedHeaders.Encode(u.fixedHeader) + body;
    SplitFrameRoundTrip(u.fixedHeader, body);
    assert FirstByte(UNSUBSCRIBE, 2) == 0xA2;
    assert body[0] == EncodeUInt16(packetId)[0] && body[1] == EncodeUInt16(packetId)[1];
    UInt16RoundTrip(packetId);
    assert body[2..] == TopicsBytes(topics);
    TopicsRoundTrip(topics);
    ParseSteps(Encode(u), body, packetId, topics);
  }

  /** `Parse` unfolded: the successful path through its checks. */
  lemma ParseSteps(bytes: seq<byte>, body: seq<byte>, packetId: uint16, topics: seq<seq<byte>>)
    requires SplitFrame(bytes) == Some((0xA2, body)) && |body| >= 2
    requires DecodeUInt16(body[0], body[1]) == packetId && ParseTopics(body[2..]) == Some(topics)
    ensures Parse(bytes) == Some(Unsubscribe(FixedHeader(UNSUBSCRIBE, 2, |body|), packetId, topics))
  {
  }
}
