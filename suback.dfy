/** SUBACK (MQTT 3.1.1, section 3.9): one return code per requested filter. */
module SubackCodec {
  import opened Wrappers
  import opened Wire
  import opened ControlPacketType
  import Errors
  import opened FixedHeaders
  import opened HeaderGuards
  import opened RemainingLengthDecoding

  /** Granted QoS 0, 1 or 2, or failure (0x80). */
  datatype SubackReturnCode = QoS0 | QoS1 | QoS2 | Rejected

  function RawValue(c: SubackReturnCode): (r: byte)
    ensures r == 0 || r == 1 || r == 2 || r == 0x80
  {
    match c
    case QoS0 => 0x00
    case QoS1 => 0x01
    case QoS2 => 0x02
    case Rejected => 0x80
  }

  /** `SubackReturnCode(rawValue:)`: only 0x00, 0x01, 0x02 and 0x80 name a code. */
  function FromRaw(b: byte): (r: Option<SubackReturnCode>)
    ensures r.Some? <==> b == 0 || b == 1 || b == 2 || b == 0x80
    ensures r.Some? ==> RawValue(r.value) == b
  {
    if b == 0x00 then Some(QoS0)
    else if b == 0x01 then Some(QoS1)
    else if b == 0x02 then Some(QoS2)
    else if b == 0x80 then Some(SubackReturnCode.Rejected)
    else None
  }

  lemma ReturnCodeRoundTrip(c: SubackReturnCode)
    ensures FromRaw(RawValue(c)) == Some(c)
  {
  }

  /** The payload bytes: one raw value per code, in order. */
  function CodeBytes(codes: seq<SubackReturnCode>): (r: seq<byte>)
    ensures |r| == |codes|
    ensures forall i :: 0 <= i < |codes| ==> r[i] == RawValue(codes[i])
  {
    if codes == [] then [] else CodeBytes(codes[..|codes| - 1]) + [RawValue(codes[|codes| - 1])]
  }

  /**
   * What `SubackPayload(bytes:)` computes: every byte must be a return code, else
   * the whole payload is rejected; the codes keep the bytes' order and number.
   */
  function ParseCodes(bytes: seq<byte>): (r: Result<seq<SubackReturnCode>, Errors.MQTTError>)
    ensures r.Ok? <==> forall i :: 0 <= i < |bytes| ==> FromRaw(bytes[i]).Some?
    ensures r.Ok? ==> CodeBytes(r.value) == bytes
    ensures r.Err? ==> r.error == Errors.Malformed(Errors.InvalidReturnCode)
  {
    if bytes == [] then Ok([])
    else match ParseCodes(bytes[..|bytes| - 1])
      case Err(e) => Err(e)
      case Ok(codes) =>
        match FromRaw(bytes[|bytes| - 1])
        case None => Err(Errors.Malformed(Errors.InvalidReturnCode))
        case Some(code) =>
          assert bytes == bytes[..|bytes| - 1] + [bytes[|bytes| - 1]];
          assert (codes + [code])[..|codes + [code]| - 1] == codes;
          Ok(codes + [code])
  }

  /** Codes survive the trip through their bytes. */
  lemma CodesRoundTrip(codes: seq<SubackReturnCode>)
    ensures ParseCodes(CodeBytes(codes)) == Ok(codes)
  {
    var r := ParseCodes(CodeBytes(codes));
    assert r.Ok?;
    CodeBytesInjective(r.value, codes);
  }

  lemma CodeBytesInjective(a: seq<SubackReturnCode>, b: seq<SubackReturnCode>)
    requires CodeBytes(a) == CodeBytes(b)
    ensures a == b
  {
    assert |a| == |b|;
    forall i | 0 <= i < |a|
      ensures a[i] == b[i]
    {
      ReturnCodeRoundTrip(a[i]);
      ReturnCodeRoundTrip(b[i]);
    }
  }

  /** `SubackPayload(bytes:)`: the for-loop that converts each byte or throws. */
  method DecodePayload(bytes: seq<byte>) returns (r: Result<seq<SubackReturnCode>, Errors.MQTTError>)
    ensures r == ParseCodes(bytes)
  {
    var codes: seq<SubackReturnCode> := [];
    for i := 0 to |bytes|
      invariant ParseCodes(bytes[..i]) == Ok(codes)
    {
      assert bytes[..i + 1][..i] == bytes[..i];
      match FromRaw(bytes[i])
      case None =>
        PrefixFailurePropagates(bytes, i + 1);
        return Err(Errors.Malformed(Errors.InvalidReturnCode));
      case Some(code) =>
        codes := codes + [code];
    }
    assert bytes[..|bytes|] == bytes;
    return Ok(codes);
  }

  /** A prefix with an invalid byte makes the whole payload invalid, with the same error. */
  lemma PrefixFailurePropagates(bytes: seq<byte>, n: nat)
    requires n <= |bytes| && ParseCodes(bytes[..n]).Err?
    ensures ParseCodes(bytes) == ParseCodes(bytes[..n])
  {
    var i :| 0 <= i < n && FromRaw(bytes[..n][i]).None?;
    assert bytes[i] == bytes[..n][i];
  }

  /** `SubackPayload.encode`: the for-loop appending each code's raw value. */
  method EncodePayload(returnCodes: seq<SubackReturnCode>) returns (bytes: seq<byte>)
    ensures bytes == CodeBytes(returnCodes)
  {
    bytes := [];
    for i := 0 to |returnCodes|
      invariant bytes == CodeBytes(returnCodes[..i])
    {
      assert returnCodes[..i + 1][..i] == returnCodes[..i];
      bytes := bytes + [RawValue(returnCodes[i])];
    }
    assert returnCodes[..|returnCodes|] == returnCodes;
  }

  datatype Suback = Suback(fixedHeader: FixedHeader, packetId: uint16, returnCodes: seq<SubackReturnCode>)

  /** `Suback(packetId:returnCodes:)`: the remaining length is 2 plus one byte per code. */
  function Make(packetId: uint16, returnCodes: seq<SubackReturnCode>): (r: Suback)
    ensures r.fixedHeader == FixedHeader(SUBACK, 0, 2 + |returnCodes|)
  {
    Suback(FixedHeader(SUBACK, 0, |EncodeUInt16(packetId)| + |CodeBytes(returnCodes)|), packetId, returnCodes)
  }

  function Encode(s: Suback): seq<byte>
  {
    FixedHeaders.Encode(s.fixedHeader) + EncodeUInt16(s.packetId) + CodeBytes(s.returnCodes)
  }

  /**
   * `Suback(bytes:)` as written: after the type and flags checks it reads the
   * identifier from bytes 2 and 3 and the codes from byte 4 on, as if the
   * remaining length always took one byte. The remaining length recorded is
   * recomputed from the codes, never read.
   */
  function DecodeAsWritten(bytes: seq<byte>): (r: Result<Suback, Errors.MQTTError>)
    requires |bytes| >= 4
    ensures r.Ok? <==> bytes[0] == 0x90 && ParseCodes(bytes[4..]).Ok?
    ensures r.Ok? ==> r.value == Make(256 * (bytes[2] as int) + bytes[3] as int, r.value.returnCodes)
  {
    match CheckTypeAndFlags(bytes[0], SUBACK, SUBACK, 0)
    case Some(reason) => Err(Errors.Malformed(reason))
    case None =>
      var packetId := DecodeUInt16(bytes[2], bytes[3]);
      match ParseCodes(bytes[4..])
      case Err(e) => Err(e)
      case Ok(codes) => Ok(Make(packetId, codes))
  }

  /** The bytes the corrected decoder reads are present: a whole length field, then two identifier bytes. */
  predicate Readable(bytes: seq<byte>)
  {
    RemainingLength(bytes).Ok? && RemainingLength(bytes).value.length + 3 <= |bytes|
  }

  /**
   * `Suback(bytes:)` with the identifier and the codes read after the Remaining
   * Length field, however many bytes that field takes.
   */
  function Decode(bytes: seq<byte>): (r: Result<Suback, Errors.MQTTError>)
    requires |bytes| >= 1 && Readable(bytes)
    ensures r.Ok? <==> bytes[0] == 0x90 && ParseCodes(bytes[RemainingLength(bytes).value.length + 3..]).Ok?
  {
    match CheckTypeAndFlags(bytes[0], SUBACK, SUBACK, 0)
    case Some(reason) => Err(Errors.Malformed(reason))
    case None =>
      var start := RemainingLength(bytes).value.length + 1;
      var packetId := DecodeUInt16(bytes[start], bytes[start + 1]);
      assert bytes[start + 2..] == bytes[RemainingLength(bytes).value.length + 3..];
      match ParseCodes(bytes[start + 2..])
      case Err(e) => Err(e)
      case Ok(codes) => Ok(Make(packetId, codes))
  }

  /** Once the length field and the body are laid out, the corrected decoder reads identifier and codes back. */
  lemma DecodeBody(bytes: seq<byte>, n: nat, packetId: uint16, returnCodes: seq<SubackReturnCode>)
    requires |bytes| >= 1 && bytes[0] == 0x90
    requires RemainingLength(bytes).Ok? && RemainingLength(bytes).value.length == n
    requires n + 1 <= |bytes| && bytes[n + 1..] == EncodeUInt16(packetId) + CodeBytes(returnCodes)
    ensures Readable(bytes) && Decode(bytes) == Ok(Make(packetId, returnCodes))
  {
    assert bytes[n + 1] == EncodeUInt16(packetId)[0] && bytes[n + 2] == EncodeUInt16(packetId)[1];
    assert DecodeUInt16(bytes[n + 1], bytes[n + 2]) == packetId;
    assert bytes[n + 3..] == CodeBytes(returnCodes);
    CodesRoundTrip(returnCodes);
  }

  /** Every SUBACK, however many codes it carries, decodes back to itself. */
  lemma RoundTrip(packetId: uint16, returnCodes: seq<SubackReturnCode>)
    requires 2 + |returnCodes| < MaxRemainingLength
    ensures Readable(Encode(Make(packetId, returnCodes)))
    ensures Decode(Encode(Make(packetId, returnCodes))) == Ok(Make(packetId, returnCodes))
  {
    var s := Make(packetId, returnCodes);
    var rl := s.fixedHeader.remainingLength;
    var body := EncodeUInt16(packetId) + CodeBytes(returnCodes);
    var bytes := Encode(s);
    assert FirstByte(SUBACK, 0) == 0x90;
    assert bytes == [0x90] + VarIntBytes(rl) + body;
    RemainingLengthRoundTrip(0x90, rl, body);
    assert bytes[|VarIntBytes(rl)| + 1..] == body;
    DecodeBody(bytes, |VarIntBytes(rl)|, packetId, returnCodes);
  }

  /** With a one-byte length field the two decoders agree. */
  lemma DecodersAgreeOnShortFrames(bytes: seq<byte>)
    requires |bytes| >= 4 && bytes[1] < 128
    ensures Readable(bytes) && Decode(bytes) == DecodeAsWritten(bytes)
  {
    OneByteLength(bytes);
  }

  /** n codes of QoS 0. */
  function ManyCodes(n: nat): (r: seq<SubackReturnCode>)
    ensures |r| == n && CodeBytes(r) == seq(n, _ => 0)
  {
    var r := seq(n, _ => QoS0);
    assert forall i :: 0 <= i < n ==> CodeBytes(r)[i] == 0;
    r
  }

  /** 126 codes push the remaining length to 128, which takes a two-byte field. */
  lemma LongSubackLayout()
    ensures Encode(Make(1, ManyCodes(126))) == [0x90, 0x80, 0x01, 0x00, 0x01] + seq(126, _ => 0)
  {
    VarIntStep(128);
    VarIntStep(1);
    assert VarIntBytes(128) == [0x80, 0x01];
    assert FirstByte(SUBACK, 0) == 0x90;
    assert EncodeUInt16(1) == [0x00, 0x01];
  }

  /**
   * The decoder as written misreads a SUBACK with 126 codes: the second length byte
   * is taken as the identifier's high byte, so identifier 1 comes back as 256, and
   * the identifier's low byte becomes an extra QoS 1 code. The corrected decoder
   * reads the same bytes back as sent.
   */
  lemma AsWrittenMisreadsLongSuback()
    ensures var r := DecodeAsWritten(Encode(Make(1, ManyCodes(126))));
      r.Ok? && r.value.packetId == 256 && |r.value.returnCodes| == 127 && r.value.returnCodes[0] == QoS1
    ensures Decode(Encode(Make(1, ManyCodes(126)))) == Ok(Make(1, ManyCodes(126)))
  {
    LongSubackLayout();
    MisreadLongLayout(Encode(Make(1, ManyCodes(126))));
    RoundTrip(1, ManyCodes(126));
  }

  /** What the decoder as written makes of those bytes. */
  lemma MisreadLongLayout(bytes: seq<byte>)
    requires bytes == [0x90, 0x80, 0x01, 0x00, 0x01] + seq(126, _ => 0)
    ensures var r := DecodeAsWritten(bytes);
      r.Ok? && r.value.packetId == 256 && |r.value.returnCodes| == 127 && r.value.returnCodes[0] == QoS1
  {
    assert bytes[0] == 0x90 && bytes[2] == 0x01 && bytes[3] == 0x00;
    var payload := bytes[4..];
    assert |payload| == 127 && payload[0] == 0x01;
    assert forall i :: 1 <= i < |payload| ==> payload[i] == bytes[i + 4] == 0;
    var codes := ParseCodes(payload).value;
    assert RawValue(codes[0]) == 0x01;
  }

  /** The bytes of the SUBACK test: identifier 1, codes QoS 0, 1 and 2. */
  lemma VectorLayout()
    ensures Encode(Make(1, [QoS0, QoS1, QoS2])) == [0x90, 0x05, 0x00, 0x01, 0x00, 0x01, 0x02]
  {
    VarIntStep(5);
    assert FirstByte(SUBACK, 0) == 0x90;
    assert EncodeUInt16(1) == [0x00, 0x01];
    assert CodeBytes([QoS0, QoS1, QoS2]) == [0x00, 0x01, 0x02];
  }

  /** The SUBACK test vector, read back by both decoders. */
  lemma Vector()
    ensures Decode([0x90, 0x05, 0x00, 0x01, 0x00, 0x01, 0x02]) == Ok(Make(1, [QoS0, QoS1, QoS2]))
    ensures DecodeAsWritten([0x90, 0x05, 0x00, 0x01, 0x00, 0x01, 0x02]) == Ok(Make(1, [QoS0, QoS1, QoS2]))
  {
    VectorLayout();
    RoundTrip(1, [QoS0, QoS1, QoS2]);
    DecodersAgreeOnShortFrames([0x90, 0x05, 0x00, 0x01, 0x00, 0x01, 0x02]);
  }
}
