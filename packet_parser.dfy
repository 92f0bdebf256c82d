/**
 * The framing half of `PacketParser`: how buffered bytes are cut into frames
 * by their Remaining Length prefix, whatever is then done with each frame.
 * The frame decoder is a parameter; `PacketParsing` supplies `decodePacket`.
 */
module Framing {
  import opened Wrappers
  import opened Wire
  import opened Errors
  import opened RemainingLengthDecoding
  import opened Packets

  /** What is done with one complete frame: a packet, nothing (an unrecognised first byte), or an error. */
  type Decoder = seq<byte> -> Result<Option<MQTTPacket>, MQTTError>

  /** A complete frame: its length field decodes, and the frame holds exactly the bytes it announces. */
  predicate Frame(frame: seq<byte>)
  {
    RemainingLength(frame).Ok? && |frame| == 1 + RemainingLength(frame).value.length + RemainingLength(frame).value.value
  }

  /** The result of one `parsePacket()` call: the packet it returned, if any, and the bytes left buffered. */
  datatype Step = Step(packet: Option<MQTTPacket>, rest: seq<byte>)

  /**
   * `parsePacket()`: needs two bytes and a whole frame before it consumes
   * anything; a complete frame is consumed even when it does not decode.
   */
  function ParseStep(decode: Decoder, buf: seq<byte>): (r: Step)
    ensures |r.rest| <= |buf|
    ensures r.packet.Some? ==> |r.rest| < |buf|
    ensures |buf| < 2 ==> r == Step(None, buf)
  {
    if |buf| < 2 then Step(None, buf)
    else match RemainingLength(buf)
      case Err(_) => Step(None, buf)
      case Ok(field) =>
        var total := 1 + field.length + field.value;
        if |buf| < total then Step(None, buf)
        else match decode(buf[..total])
          case Err(_) => Step(None, buf[total..])
          case Ok(p) => Step(p, buf[total..])
  }

  /** What `feed` returns and leaves behind: packets in wire order until `parsePacket()` returns nil. */
  datatype Drained = Drained(packets: seq<MQTTPacket>, rest: seq<byte>)

  function Drain(decode: Decoder, buf: seq<byte>): (r: Drained)
    decreases |buf|
  {
    var s := ParseStep(decode, buf);
    match s.packet
    case None => Drained([], s.rest)
    case Some(p) =>
      var d := Drain(decode, s.rest);
      Drained([p] + d.packets, d.rest)
  }

  /** A frame whose decoder accepts it, together with the packet it yields. */
  predicate GoodFrame(decode: Decoder, frame: seq<byte>, p: MQTTPacket)
  {
    Frame(frame) && decode(frame) == Ok(Some(p))
  }

  /** A good frame at the front of the buffer is returned and exactly its bytes are consumed. */
  lemma FrameStep(decode: Decoder, frame: seq<byte>, p: MQTTPacket, rest: seq<byte>)
    requires GoodFrame(decode, frame, p)
    ensures ParseStep(decode, frame + rest) == Step(Some(p), rest)
  {
    LengthPrefixStable(frame, rest);
    assert (frame + rest)[..|frame|] == frame;
    assert (frame + rest)[|frame|..] == rest;
  }

  /** A frame that does not decode, or that no decoder claims, is dropped and ends the drain; what follows stays buffered. */
  lemma BadFrameStopsDrain(decode: Decoder, frame: seq<byte>, rest: seq<byte>)
    requires Frame(frame) && (decode(frame).Err? || decode(frame) == Ok(None))
    ensures Drain(decode, frame + rest) == Drained([], rest)
  {
    LengthPrefixStable(frame, rest);
    assert (frame + rest)[..|frame|] == frame;
    assert (frame + rest)[|frame|..] == rest;
  }

  /** Until a frame is complete, nothing is returned and nothing is consumed. */
  lemma PartialFrameWaits(decode: Decoder, frame: seq<byte>, k: nat)
    requires Frame(frame) && k < |frame|
    ensures ParseStep(decode, frame[..k]) == Step(None, frame[..k])
  {
    var buf := frame[..k];
    if |buf| >= 2 && RemainingLength(buf).Ok? {
      LengthPrefixStable(buf, frame[k..]);
      assert buf + frame[k..] == frame;
    }
  }

  function Concat(frames: seq<seq<byte>>): seq<byte>
  {
    if frames == [] then [] else frames[0] + Concat(frames[1..])
  }

  /** Draining past a good frame returns its packet and goes on with what follows. */
  lemma DrainPastFrame(decode: Decoder, frame: seq<byte>, p: MQTTPacket, rest: seq<byte>)
    requires GoodFrame(decode, frame, p)
    ensures Drain(decode, frame + rest) == Drained([p] + Drain(decode, rest).packets, Drain(decode, rest).rest)
  {
    FrameStep(decode, frame, p, rest);
  }

  /** Each frame is good and yields the packet at the same position. */
  predicate GoodFrames(decode: Decoder, frames: seq<seq<byte>>, packets: seq<MQTTPacket>)
  {
    |frames| == |packets| && forall i :: 0 <= i < |frames| ==> GoodFrame(decode, frames[i], packets[i])
  }

  /** Bookkeeping for the drain lemmas: one packet in front of a drain that already returned the rest. */
  lemma PrependPacket(packets: seq<MQTTPacket>, tail: Drained, after: Drained, whole: Drained)
    requires |packets| > 0
    requires after == Drained(packets[1..] + tail.packets, tail.rest)
    requires whole == Drained([packets[0]] + after.packets, after.rest)
    ensures whole == Drained(packets + tail.packets, tail.rest)
  {
    assert packets + tail.packets == [packets[0]] + (packets[1..] + tail.packets);
  }

  /** Good frames back to back are all returned, in order, and then the tail is drained as if alone. */
  lemma {:induction false} DrainFrames(decode: Decoder, frames: seq<seq<byte>>, packets: seq<MQTTPacket>, tail: seq<byte>)
    requires GoodFrames(decode, frames, packets)
    ensures Drain(decode, Concat(frames) + tail) == Drained(packets + Drain(decode, tail).packets, Drain(decode, tail).rest)
    decreases |frames|
  {
    if frames != [] {
      var more := Concat(frames[1..]) + tail;
      assert Concat(frames) + tail == frames[0] + more;
      GoodFramesTail(decode, frames, packets);
      DrainPastFrame(decode, frames[0], packets[0], more);
      DrainFrames(decode, frames[1..], packets[1..], tail);
      PrependPacket(packets, Drain(decode, tail), Drain(decode, more), Drain(decode, frames[0] + more));
    } else {
      assert Concat(frames) + tail == tail;
      assert packets + Drain(decode, tail).packets == Drain(decode, tail).packets;
    }
  }

  /**
   * Chunking does not matter: for a stream of good frames split anywhere into `a`
   * and `b`, feeding `a` and then `b` to a fresh parser returns the same packets
   * as feeding `a + b` at once, and leaves nothing buffered.
   */
  lemma {:induction false} ChunkingInvariant(decode: Decoder, frames: seq<seq<byte>>, packets: seq<MQTTPacket>, a: seq<byte>, b: seq<byte>)
    requires GoodFrames(decode, frames, packets)
    requires a + b == Concat(frames)
    ensures Drain(decode, a).packets + Drain(decode, Drain(decode, a).rest + b).packets == packets
    ensures Drain(decode, Drain(decode, a).rest + b).rest == []
    ensures Drain(decode, a + b) == Drained(packets, [])
    decreases |frames|
  {
    WholeStream(decode, frames, packets);
    if frames == [] {
      assert a == [] && b == [];
      assert Drain(decode, []) == Drained([], []);
    } else {
      var more := Concat(frames[1..]);
      assert Concat(frames) == frames[0] + more;
      GoodFramesTail(decode, frames, packets);
      if |a| >= |frames[0]| {
        var a' := a[|frames[0]|..];
        CutAfter(frames[0], more, a, b);
        ChunkingInvariant(decode, frames[1..], packets[1..], a', b);
        SplitAfterFrame(decode, frames[0], packets, a', b);
      } else {
        SplitInsideFrame(decode, frames[0], more, packets, a, b);
      }
    }
  }

  /** A cut at or after the end of the first frame leaves that whole frame in the first chunk. */
  lemma CutAfter(frame: seq<byte>, more: seq<byte>, a: seq<byte>, b: seq<byte>)
    requires a + b == frame + more && |a| >= |frame|
    ensures a == frame + a[|frame|..] && a[|frame|..] + b == more
  {
    assert a == (a + b)[..|a|];
    assert a[|frame|..] + b == (a + b)[|frame|..];
  }

  /** The split point lies beyond the first frame: that frame's packet comes first, the rest as for the shorter stream. */
  lemma SplitAfterFrame(decode: Decoder, frame: seq<byte>, packets: seq<MQTTPacket>, a': seq<byte>, b: seq<byte>)
    requires |packets| > 0 && GoodFrame(decode, frame, packets[0])
    requires Drain(decode, a').packets + Drain(decode, Drain(decode, a').rest + b).packets == packets[1..]
    requires Drain(decode, Drain(decode, a').rest + b).rest == []
    ensures Drain(decode, frame + a').packets + Drain(decode, Drain(decode, frame + a').rest + b).packets == packets
    ensures Drain(decode, Drain(decode, frame + a').rest + b).rest == []
  {
    DrainPastFrame(decode, frame, packets[0], a');
    var d := Drain(decode, a');
    var later := Drain(decode, d.rest + b);
    JoinAfterFrame(packets, d, later, Drain(decode, frame + a'));
  }

  /** Bookkeeping for `SplitAfterFrame`: one packet in front of both feeds' packets. */
  lemma JoinAfterFrame(packets: seq<MQTTPacket>, first: Drained, later: Drained, whole: Drained)
    requires |packets| > 0 && first.packets + later.packets == packets[1..]
    requires whole == Drained([packets[0]] + first.packets, first.rest)
    ensures whole.packets + later.packets == packets && whole.rest == first.rest
  {
    assert whole.packets + later.packets == [packets[0]] + (first.packets + later.packets);
    assert packets == [packets[0]] + packets[1..];
  }

  /** The split point falls inside the first frame: the first feed returns nothing and keeps its bytes. */
  lemma SplitInsideFrame(decode: Decoder, frame: seq<byte>, more: seq<byte>, packets: seq<MQTTPacket>, a: seq<byte>, b: seq<byte>)
    requires Frame(frame) && |a| < |frame| && a + b == frame + more
    requires Drain(decode, a + b) == Drained(packets, [])
    ensures Drain(decode, a).packets + Drain(decode, Drain(decode, a).rest + b).packets == packets
    ensures Drain(decode, Drain(decode, a).rest + b).rest == []
  {
    assert a == (a + b)[..|a|] == frame[..|a|];
    PartialFrameWaits(decode, frame, |a|);
    assert Drain(decode, a) == Drained([], a);
    assert [] + packets == packets;
  }

  /** All of a stream of good frames drains at once, leaving nothing behind. */
  lemma WholeStream(decode: Decoder, frames: seq<seq<byte>>, packets: seq<MQTTPacket>)
    requires GoodFrames(decode, frames, packets)
    ensures Drain(decode, Concat(frames)) == Drained(packets, [])
  {
    DrainFrames(decode, frames, packets, []);
    assert Concat(frames) + [] == Concat(frames);
    assert Drain(decode, []) == Drained([], []);
    assert packets + [] == packets;
  }

  lemma GoodFramesTail(decode: Decoder, frames: seq<seq<byte>>, packets: seq<MQTTPacket>)
    requires GoodFrames(decode, frames, packets) && frames != []
    ensures GoodFrame(decode, frames[0], packets[0]) && GoodFrames(decode, frames[1..], packets[1..])
  {
    forall i | 0 <= i < |frames| - 1
      ensures GoodFrame(decode, frames[1..][i], packets[1..][i])
    {
      assert GoodFrame(decode, frames[i + 1], packets[i + 1]);
    }
  }
}

/**
 * `PacketParser`: buffers the bytes arriving from the socket, peels complete
 * frames off the front using the Remaining Length prefix, and turns each frame
 * into a packet by dispatching on its first byte.
 */
module PacketParsing {
  import opened Wrappers
  import opened Framing
  import opened Wire
  import opened Errors
  import opened RemainingLengthDecoding
  import opened Packets
  import ConnectReturnCodes
  import ConnackCodec
  import SubackCodec
  import PingrespCodec
  import PublishCodec
  import PubrelCodec
  import PubackCodec
  import PubcompCodec
  import PubrecCodec

  /** The first bytes `decodePacket` recognises: CONNACK, SUBACK, PINGRESP, any PUBLISH, PUBREL, PUBACK, PUBCOMP, PUBREC. */
  predicate Dispatched(b0: byte)
  {
    b0 == 0x20 || b0 == 0x90 || b0 == 0xD0 || b0 / 16 == 3 || b0 == 0x62 || b0 == 0x40 || b0 == 0x70 || b0 == 0x50
  }

  /** The packet a first byte is dispatched to. */
  predicate DecodedAs(b0: byte, p: MQTTPacket)
  {
    match p
    case connack(_) => b0 == 0x20
    case suback(_) => b0 == 0x90
    case pingresp(_) => b0 == 0xD0
    case publish(_) => b0 / 16 == 3
    case pubrel(_) => b0 == 0x62
    case puback(_) => b0 == 0x40
    case pubcomp(_) => b0 == 0x70
    case pubrec(_) => b0 == 0x50
    case _ => false
  }

  /** The bytes the decoder chosen by the first byte reads without a bounds check are all present. */
  predicate ReadableAsWritten(frame: seq<byte>)
    requires |frame| >= 1
  {
    if frame[0] == 0x20 || frame[0] == 0x90 || frame[0] == 0x62 || frame[0] == 0x40 || frame[0] == 0x70 || frame[0] == 0x50 then |frame| >= 4
    else if frame[0] / 16 == 3 then PublishCodec.Readable(frame)
    else true
  }

  /**
   * `decodePacket(from:)` as written: a frame too short for the decoder its first
   * byte selects makes that decoder read past the end, so the caller must rule it out.
   */
  function DecodePacketAsWritten(frame: seq<byte>): (r: Result<Option<MQTTPacket>, MQTTError>)
    requires |frame| >= 1 && ReadableAsWritten(frame)
    ensures r == Ok(None) <==> !Dispatched(frame[0])
    ensures r.Ok? && r.value.Some? ==> DecodedAs(frame[0], r.value.value)
  {
    if frame[0] == 0x20 then
      match ConnackCodec.Decode(frame)
      case Ok(p) => Ok(Some(connack(p)))
      case Err(e) => Err(e)
    else if frame[0] == 0x90 then
      match SubackCodec.DecodeAsWritten(frame)
      case Ok(p) => Ok(Some(suback(p)))
      case Err(e) => Err(e)
    else if frame[0] == 0xD0 then
      match PingrespCodec.Decode(frame)
      case Ok(p) => Ok(Some(pingresp(p)))
      case Err(e) => Err(e)
    else if frame[0] / 16 == 3 then
      match PublishCodec.Decode(frame)
      case Ok(p) => Ok(Some(publish(p)))
      case Err(e) => Err(e)
    else if frame[0] == 0x62 then
      match PubrelCodec.Decode(frame)
      case Ok(p) => Ok(Some(pubrel(p)))
      case Err(e) => Err(e)
    else if frame[0] == 0x40 then
      match PubackCodec.Decode(frame)
      case Ok(p) => Ok(Some(puback(p)))
      case Err(e) => Err(e)
    else if frame[0] == 0x70 then
      match PubcompCodec.Decode(frame)
      case Ok(p) => Ok(Some(pubcomp(p)))
      case Err(e) => Err(e)
    else if frame[0] == 0x50 then
      match PubrecCodec.Decode(frame)
      case Ok(p) => Ok(Some(pubrec(p)))
      case Err(e) => Err(e)
    else Ok(None)
  }

  /** What the corrected dispatcher demands before it hands a frame to a decoder. */
  predicate Readable(frame: seq<byte>)
    requires |frame| >= 1
  {
    if frame[0] == 0x20 || frame[0] == 0x62 || frame[0] == 0x40 || frame[0] == 0x70 || frame[0] == 0x50 then |frame| >= 4
    else if frame[0] == 0x90 then SubackCodec.Readable(frame)
    else if frame[0] / 16 == 3 then PublishCodec.Readable(frame)
    else true
  }

  const TooShort: MQTTError := Malformed(InvalidRemainingLength)

  /**
   * `decodePacket(from:)` with two corrections: a frame too short for its decoder
   * is rejected as malformed instead of read past its end, and SUBACK is read with
   * the decoder that honours a multi-byte length field.
   */
  function DecodePacket(frame: seq<byte>): (r: Result<Option<MQTTPacket>, MQTTError>)
    requires |frame| >= 1
    ensures r == Ok(None) <==> !Dispatched(frame[0])
    ensures r.Ok? && r.value.Some? ==> DecodedAs(frame[0], r.value.value)
    ensures Dispatched(frame[0]) && !Readable(frame) ==> r == Err(TooShort)
  {
    if !Readable(frame) then Err(TooShort)
    else if frame[0] == 0x20 then
      match ConnackCodec.Decode(frame)
      case Ok(p) => Ok(Some(connack(p)))
      case Err(e) => Err(e)
    else if frame[0] == 0x90 then
      match SubackCodec.Decode(frame)
      case Ok(p) => Ok(Some(suback(p)))
      case Err(e) => Err(e)
    else if frame[0] == 0xD0 then
      match PingrespCodec.Decode(frame)
      case Ok(p) => Ok(Some(pingresp(p)))
      case Err(e) => Err(e)
    else if frame[0] / 16 == 3 then
      match PublishCodec.Decode(frame)
      case Ok(p) => Ok(Some(publish(p)))
      case Err(e) => Err(e)
    else if frame[0] == 0x62 then
      match PubrelCodec.Decode(frame)
      case Ok(p) => Ok(Some(pubrel(p)))
      case Err(e) => Err(e)
    else if frame[0] == 0x40 then
      match PubackCodec.Decode(frame)
      case Ok(p) => Ok(Some(puback(p)))
      case Err(e) => Err(e)
    else if frame[0] == 0x70 then
      match PubcompCodec.Decode(frame)
      case Ok(p) => Ok(Some(pubcomp(p)))
      case Err(e) => Err(e)
    else if frame[0] == 0x50 then
      match PubrecCodec.Decode(frame)
      case Ok(p) => Ok(Some(pubrec(p)))
      case Err(e) => Err(e)
    else Ok(None)
  }

  /**
   * Where the decoders the original calls are safe, the corrected dispatcher gives
   * the same answer: everywhere except a SUBACK whose length field has two or more bytes.
   */
  lemma DecodePacketAgrees(frame: seq<byte>)
    requires |frame| >= 1 && ReadableAsWritten(frame)
    requires frame[0] == 0x90 ==> frame[1] < 128
    ensures DecodePacket(frame) == DecodePacketAsWritten(frame)
  {
    if frame[0] == 0x90 {
      SubackCodec.DecodersAgreeOnShortFrames(frame);
    }
  }

  /**
   * A complete PUBACK frame of remaining length 0 passes the framer's checks, yet
   * `Puback(bytes:)` reads its identifier from bytes 2 and 3, which are not there.
   */
  lemma ShortFrameOverreads()
    ensures Frame([0x40, 0x00]) && !ReadableAsWritten([0x40, 0x00])
    ensures DecodePacket([0x40, 0x00]) == Err(TooShort)
  {
    assert RemainingLength([0x40, 0x00]) == Ok(LengthField(0, 1));
  }

  /**
   * `decodePacket(from:)` as the framer applies it. The framer never hands over
   * an empty frame (every frame has a first byte and a length byte); the empty
   * case only makes the function total.
   */
  function DecodeFrame(frame: seq<byte>): (r: Result<Option<MQTTPacket>, MQTTError>)
    ensures |frame| >= 1 ==> r == DecodePacket(frame)
  {
    if |frame| == 0 then Ok(None) else DecodePacket(frame)
  }

  /** A CONNACK as the server encodes it is a good frame: the client's parser returns it intact. */
  lemma ConnackFrame(returnCode: ConnectReturnCodes.ConnectReturnCode, sessionPresent: bool)
    ensures var c := ConnackCodec.Make(returnCode, sessionPresent);
      GoodFrame(DecodeFrame, ConnackCodec.Encode(c), connack(c))
  {
    var c := ConnackCodec.Make(returnCode, sessionPresent);
    ConnackCodec.EncodeLayout(returnCode, sessionPresent);
    ConnackCodec.RoundTrip(returnCode, sessionPresent);
    assert RemainingLength(ConnackCodec.Encode(c)) == Ok(LengthField(2, 1));
  }

  /** A PUBACK as the server encodes it is a good frame. */
  lemma PubackFrame(packetId: uint16)
    ensures var p := PubackCodec.Make(packetId);
      GoodFrame(DecodeFrame, PubackCodec.Encode(p), puback(p))
  {
    var p := PubackCodec.Make(packetId);
    PubackCodec.EncodeLayout(packetId);
    PubackCodec.RoundTrip(p, []);
    assert PubackCodec.Encode(p) + [] == PubackCodec.Encode(p);
    assert RemainingLength(PubackCodec.Encode(p)) == Ok(LengthField(2, 1));
  }

  /** A SUBACK with any number of return codes is a good frame, read by the corrected SUBACK decoder. */
  lemma SubackFrame(packetId: uint16, returnCodes: seq<SubackCodec.SubackReturnCode>)
    requires 2 + |returnCodes| < MaxRemainingLength
    ensures var s := SubackCodec.Make(packetId, returnCodes);
      GoodFrame(DecodeFrame, SubackCodec.Encode(s), suback(s))
  {
    var s := SubackCodec.Make(packetId, returnCodes);
    var body := EncodeUInt16(packetId) + SubackCodec.CodeBytes(returnCodes);
    var rl := s.fixedHeader.remainingLength;
    assert SubackCodec.Encode(s) == [0x90] + VarIntBytes(rl) + body;
    RemainingLengthRoundTrip(0x90, rl, body);
    SubackCodec.RoundTrip(packetId, returnCodes);
  }

  /**
   * `parsePacket()` only checks that two bytes are buffered before decoding the
   * length field, whose own bounds check is disabled: a PUBLISH header followed by
   * a continuation byte passes the check although the decoder would read a third
   * byte. The guarded decoder instead reports the length as unreadable yet, so the
   * parser waits for more bytes and keeps the buffer.
   */
  lemma TwoByteGuardOverreads()
    ensures |[0x30, 0x80]| >= 2 && !ReadsInBounds([0x30, 0x80], 1)
    ensures ParseStep(DecodeFrame, [0x30, 0x80]) == Step(None, [0x30, 0x80])
  {
  }

  /** The parser object: the bytes received but not yet consumed. */
  class PacketParser {
    var buffer: seq<byte>

    constructor()
      ensures buffer == []
    {
      buffer := [];
    }

    /** `parsePacket()`: the buffer loses exactly the bytes of the frame it consumed. */
    method ParsePacket() returns (packet: Option<MQTTPacket>)
      modifies this
      ensures packet == ParseStep(DecodeFrame, old(buffer)).packet && buffer == ParseStep(DecodeFrame, old(buffer)).rest
    {
      if |buffer| < 2 {
        return None;
      }
      var bytes := buffer;
      var remainingLength := DecodeRemainingLength(bytes);
      if remainingLength.Err? {
        return None;
      }
      var totalLength := 1 + remainingLength.value.length + remainingLength.value.value;
      if |buffer| < totalLength {
        return None;
      }
      var packetBytes := buffer[..totalLength];
      buffer := buffer[totalLength..];
      var decoded := DecodeFrame(packetBytes);
      if decoded.Err? {
        return None;
      }
      return decoded.value;
    }

    /** `feed(buffer:)`: append the chunk, then take packets until `parsePacket()` returns nil. */
    method Feed(chunk: seq<byte>) returns (packets: seq<MQTTPacket>)
      modifies this
      ensures packets == Drain(DecodeFrame, old(buffer) + chunk).packets
      ensures buffer == Drain(DecodeFrame, old(buffer) + chunk).rest
    {
      buffer := buffer + chunk;
      ghost var start := buffer;
      packets := [];
      while true
        invariant Drain(DecodeFrame, start) == Drained(packets + Drain(DecodeFrame, buffer).packets, Drain(DecodeFrame, buffer).rest)
        decreases |buffer|
      {
        ghost var before := buffer;
        var packet := ParsePacket();
        if packet.None? {
          assert Drain(DecodeFrame, before) == Drained([], buffer);
          assert packets + [] == packets;
          break;
        }
        assert Drain(DecodeFrame, before).packets == [packet.value] + Drain(DecodeFrame, buffer).packets;
        packets := packets + [packet.value];
      }
    }
  }
}
