/** CONNECT (MQTT 3.1.1, section 3.1): the first packet a client sends. */
module ConnectCodec {
  import opened Wrappers
  import opened Wire
  import opened ControlPacketType
  import opened QualityOfService
  import opened FixedHeaders
  import opened RemainingLengthDecoding

  /** Last will and testament: published by the server if the client vanishes. */
  datatype LWT = LWT(topic: seq<byte>, message: seq<byte>, qos: QoS, retain: bool)

  /** Credentials; the password is optional. */
  datatype Auth = Auth(username: seq<byte>, password: Option<seq<byte>>)

  datatype ConnectFlags = ConnectFlags(
    username: bool,
    password: bool,
    willRetain: bool,
    qos: QoS,
    willFlag: bool,
    cleanSession: bool)

  /**
   * `ConnConnectFlags(auth:cleanSession:lwt:)`: the will bits come from the LWT
   * (all clear without one), the credential bits from the Auth.
   */
  function MakeFlags(auth: Option<Auth>, cleanSession: bool, lwt: Option<LWT>): (r: ConnectFlags)
    ensures r.willFlag <==> lwt.Some?
    ensures lwt.None? ==> !r.willRetain && r.qos == AtMostOnce
    ensures lwt.Some? ==> r.willRetain == lwt.value.retain && r.qos == lwt.value.qos
    ensures r.username <==> auth.Some?
    ensures r.password <==> auth.Some? && auth.value.password.Some?
    ensures r.cleanSession == cleanSession
  {
    ConnectFlags(
      auth.Some?,
      auth.Some? && auth.value.password.Some?,
      lwt.Some? && lwt.value.retain,
      if lwt.Some? then lwt.value.qos else AtMostOnce,
      lwt.Some?,
      cleanSession)
  }

  /** One flag as a bit: the set bits are disjoint powers of two, so `|` is `+`. */
  function Bit(b: bool): nat
  {
    if b then 1 else 0
  }

  /**
   * `ConnConnectFlags.encode`: username bit 7, password bit 6, will retain bit 5,
   * will QoS bits 4-3, will flag bit 2, clean session bit 1, bit 0 reserved.
   */
  function EncodeFlags(f: ConnectFlags): (r: byte)
  {
    128 * Bit(f.username) + 64 * Bit(f.password) + 32 * Bit(f.willRetain)
      + 8 * QualityOfService.RawValue(f.qos) + 4 * Bit(f.willFlag) + 2 * Bit(f.cleanSession)
  }

  /**
   * Reads a connect-flags byte back, as the receiving side does: a set reserved
   * bit or will QoS 3 is malformed.
   */
  function DecodeFlags(b: byte): Option<ConnectFlags>
  {
    if b % 2 != 0 then None
    else match QualityOfService.FromRaw((b / 8) % 4)
      case None => None
      case Some(qos) =>
        Some(ConnectFlags(b / 128 == 1, (b / 64) % 2 == 1, (b / 32) % 2 == 1, qos, (b / 4) % 2 == 1, (b / 2) % 2 == 1))
  }

  /** The flags byte determines every flag: decoding gives back what was encoded. */
  lemma FlagsRoundTrip(f: ConnectFlags)
    ensures DecodeFlags(EncodeFlags(f)) == Some(f)
  {
    var q := QualityOfService.RawValue(f.qos);
    FlagDigits(EncodeFlags(f), Bit(f.username), Bit(f.password), Bit(f.willRetain), q, Bit(f.willFlag), Bit(f.cleanSession));
    QualityOfService.QoSRoundTrip(f.qos);
  }

  /** Each field of a flags byte sits at its own place value. */
  lemma FlagDigits(x: int, u: int, p: int, r: int, q: int, w: int, c: int)
    requires 0 <= u < 2 && 0 <= p < 2 && 0 <= r < 2 && 0 <= q < 4 && 0 <= w < 2 && 0 <= c < 2
    requires x == 128 * u + 64 * p + 32 * r + 8 * q + 4 * w + 2 * c
    ensures x % 2 == 0 && (x / 2) % 2 == c && (x / 4) % 2 == w && (x / 8) % 4 == q
    ensures (x / 32) % 2 == r && (x / 64) % 2 == p && x / 128 == u
  {
    DivModUnique(x, 2, 64 * u + 32 * p + 16 * r + 4 * q + 2 * w + c, 0);
    DivModUnique(x / 2, 2, 32 * u + 16 * p + 8 * r + 2 * q + w, c);
    DivModUnique(x, 4, 32 * u + 16 * p + 8 * r + 2 * q + w, 2 * c);
    DivModUnique(x / 4, 2, 16 * u + 8 * p + 4 * r + q, w);
    DivModUnique(x, 8, 16 * u + 8 * p + 4 * r + q, 4 * w + 2 * c);
    DivModUnique(x / 8, 4, 4 * u + 2 * p + r, q);
    DivModUnique(x, 32, 4 * u + 2 * p + r, 8 * q + 4 * w + 2 * c);
    DivModUnique(x / 32, 2, 2 * u + p, r);
    DivModUnique(x, 64, 2 * u + p, 32 * r + 8 * q + 4 * w + 2 * c);
    DivModUnique(x / 64, 2, u, p);
    DivModUnique(x, 128, u, 64 * p + 32 * r + 8 * q + 4 * w + 2 * c);
  }

  /** And every well-formed flags byte is the encoding of the flags it decodes to. */
  lemma FlagsByteRoundTrip(b: byte)
    requires DecodeFlags(b).Some?
    ensures EncodeFlags(DecodeFlags(b).value) == b
  {
    var f := DecodeFlags(b).value;
    FlagFields(b);
    EncodeFromDigits(f, b, b / 128, (b / 64) % 2, (b / 32) % 2, (b / 8) % 4, (b / 4) % 2, (b / 2) % 2);
  }

  /** Flags whose fields are the given digits encode to the number those digits spell. */
  lemma EncodeFromDigits(f: ConnectFlags, x: int, u: int, p: int, r: int, q: int, w: int, c: int)
    requires 0 <= u < 2 && 0 <= p < 2 && 0 <= r < 2 && 0 <= w < 2 && 0 <= c < 2
    requires f.username == (u == 1) && f.password == (p == 1) && f.willRetain == (r == 1)
    requires QualityOfService.RawValue(f.qos) == q && f.willFlag == (w == 1) && f.cleanSession == (c == 1)
    requires x == 128 * u + 64 * p + 32 * r + 8 * q + 4 * w + 2 * c
    ensures EncodeFlags(f) == x
  {
  }

  /** A byte is the sum of its flag fields: bits 7, 6 and 5, bits 4-3, then bits 2, 1 and 0. */
  lemma FlagFields(b: byte)
    ensures b == 128 * (b / 128) + 64 * ((b / 64) % 2) + 32 * ((b / 32) % 2) + 8 * ((b / 8) % 4)
      + 4 * ((b / 4) % 2) + 2 * ((b / 2) % 2) + b % 2
  {
    DivModUnique(b, 4, (b / 2) / 2, b % 2 + 2 * ((b / 2) % 2));
    DivModUnique(b, 8, (b / 4) / 2, b % 4 + 4 * ((b / 4) % 2));
    DivModUnique(b, 32, (b / 8) / 4, b % 8 + 8 * ((b / 8) % 4));
    DivModUnique(b, 64, (b / 32) / 2, b % 32 + 32 * ((b / 32) % 2));
    DivModUnique(b, 128, (b / 64) / 2, b % 64 + 64 * ((b / 64) % 2));
  }

  datatype VariableHeader = VariableHeader(
    protocolName: seq<byte>,
    protocolLevel: byte,
    connectFlags: ConnectFlags,
    keepAlive: uint16)

  /** `ConnVariableHeader.encode`: name, level, flags byte, keep-alive high byte first. */
  function EncodeVariableHeader(vh: VariableHeader): (r: seq<byte>)
    requires |vh.protocolName| < 0x1_0000
    ensures |r| == |vh.protocolName| + 6
  {
    LengthPrefixed(vh.protocolName) + [vh.protocolLevel, EncodeFlags(vh.connectFlags)] + EncodeUInt16(vh.keepAlive)
  }

  datatype Payload = Payload(
    clientId: seq<byte>,
    willTopic: Option<seq<byte>>,
    willMessage: Option<seq<byte>>,
    username: Option<seq<byte>>,
    password: Option<seq<byte>>)

  /** `ConnPayload(clientId:lwt:auth:)`. */
  function MakePayload(clientId: seq<byte>, lwt: Option<LWT>, auth: Option<Auth>): Payload
  {
    Payload(
      clientId,
      if lwt.Some? then Some(lwt.value.topic) else None,
      if lwt.Some? then Some(lwt.value.message) else None,
      if auth.Some? then Some(auth.value.username) else None,
      if auth.Some? then auth.value.password else None)
  }

  predicate FieldFits(field: Option<seq<byte>>)
  {
    field.Some? ==> |field.value| < 0x1_0000
  }

  /** Every string field fits its two-byte length prefix. */
  predicate PayloadFits(p: Payload)
  {
    |p.clientId| < 0x1_0000 && FieldFits(p.willTopic) && FieldFits(p.willMessage)
      && FieldFits(p.username) && FieldFits(p.password)
  }

  function OptionalField(field: Option<seq<byte>>): seq<byte>
    requires FieldFits(field)
  {
    match field
    case None => []
    case Some(s) => LengthPrefixed(s)
  }

  /**
   * `ConnPayload.encode`: the client id, then will topic, will message, username
   * and password, each only when present, each length-prefixed (section 3.1.3).
   */
  function EncodePayload(p: Payload): seq<byte>
    requires PayloadFits(p)
  {
    LengthPrefixed(p.clientId)
      + (OptionalField(p.willTopic) + (OptionalField(p.willMessage) + (OptionalField(p.username) + OptionalField(p.password))))
  }

  function ReadOptional(present: bool, bytes: seq<byte>): Option<(Option<seq<byte>>, seq<byte>)>
  {
    if !present then Some((None, bytes))
    else match ReadLengthPrefixed(bytes)
      case None => None
      case Some((field, rest)) => Some((Some(field), rest))
  }

  /**
   * Reads a payload back the way section 3.1.3 lays it out: which optional fields
   * follow the client id is told by the flags, and nothing may be left over.
   */
  function ParsePayload(bytes: seq<byte>, flags: ConnectFlags): Option<Payload>
  {
    match ReadLengthPrefixed(bytes)
    case None => None
    case Some((clientId, r1)) =>
      match ReadOptional(flags.willFlag, r1)
      case None => None
      case Some((willTopic, r2)) =>
        match ReadOptional(flags.willFlag, r2)
        case None => None
        case Some((willMessage, r3)) =>
          match ReadOptional(flags.username, r3)
          case None => None
          case Some((username, r4)) =>
            match ReadOptional(flags.password, r4)
            case None => None
            case Some((password, r5)) =>
              if r5 == [] then Some(Payload(clientId, willTopic, willMessage, username, password)) else None
  }

  /** The flags announce exactly the optional fields the payload carries. */
  predicate Agrees(p: Payload, flags: ConnectFlags)
  {
    && (p.willTopic.Some? <==> flags.willFlag)
    && (p.willMessage.Some? <==> flags.willFlag)
    && (p.username.Some? <==> flags.username)
    && (p.password.Some? <==> flags.password)
  }

  lemma ReadOptionalRoundTrip(field: Option<seq<byte>>, rest: seq<byte>)
    requires FieldFits(field)
    ensures ReadOptional(field.Some?, OptionalField(field) + rest) == Some((field, rest))
  {
    if field.Some? {
      LengthPrefixedRoundTrip(field.value, rest);
    } else {
      assert OptionalField(field) + rest == rest;
    }
  }

  lemma PayloadRoundTrip(p: Payload, flags: ConnectFlags)
    requires PayloadFits(p) && Agrees(p, flags)
    ensures ParsePayload(EncodePayload(p), flags) == Some(p)
  {
    assert flags.willFlag == p.willTopic.Some? == p.willMessage.Some?;
    assert flags.username == p.username.Some? && flags.password == p.password.Some?;
    var f5 := OptionalField(p.password);
    var f4 := OptionalField(p.username) + f5;
    var f3 := OptionalField(p.willMessage) + f4;
    var f2 := OptionalField(p.willTopic) + f3;
    LengthPrefixedRoundTrip(p.clientId, f2);
    ReadOptionalRoundTrip(p.willTopic, f3);
    ReadOptionalRoundTrip(p.willMessage, f4);
    ReadOptionalRoundTrip(p.username, f5);
    assert f5 == f5 + [];
    ReadOptionalRoundTrip(p.password, []);
    PayloadSteps(EncodePayload(p), flags, p, f2, f3, f4, f5);
  }

  /** `ParsePayload` unfolded: each field read in turn, nothing left over. */
  lemma PayloadSteps(bytes: seq<byte>, flags: ConnectFlags, p: Payload, r1: seq<byte>, r2: seq<byte>, r3: seq<byte>, r4: seq<byte>)
    requires ReadLengthPrefixed(bytes) == Some((p.clientId, r1))
    requires ReadOptional(flags.willFlag, r1) == Some((p.willTopic, r2))
    requires ReadOptional(flags.willFlag, r2) == Some((p.willMessage, r3))
    requires ReadOptional(flags.username, r3) == Some((p.username, r4))
    requires ReadOptional(flags.password, r4) == Some((p.password, []))
    ensures ParsePayload(bytes, flags) == Some(p)
  {
  }

  /** What the builder puts in the payload is what its flags announce. */
  lemma MadeAgrees(clientId: seq<byte>, lwt: Option<LWT>, auth: Option<Auth>, cleanSession: bool)
    ensures Agrees(MakePayload(clientId, lwt, auth), MakeFlags(auth, cleanSession, lwt))
  {
  }

  datatype Connect = Connect(fixedHeader: FixedHeader, varHeader: VariableHeader, payload: Payload)

  /** "MQTT", the protocol name of version 3.1.1. */
  const ProtocolName: seq<byte> := [0x4d, 0x51, 0x54, 0x54]

  /**
   * `Connect(clientId:keepAlive:lwt:auth:cleanSession:)`. Protocol "MQTT" level 4;
   * the keep-alive written is always 60, whatever `keepAlive` says.
   */
  function Make(clientId: seq<byte>, keepAlive: uint16, lwt: Option<LWT>, auth: Option<Auth>, cleanSession: bool): (r: Connect)
    requires PayloadFits(MakePayload(clientId, lwt, auth))
    ensures r.varHeader.keepAlive == 60
    ensures r.varHeader.protocolName == ProtocolName && r.varHeader.protocolLevel == 4
    ensures r.varHeader.connectFlags == MakeFlags(auth, cleanSession, lwt)
    ensures r.payload == MakePayload(clientId, lwt, auth)
    ensures r.fixedHeader.remainingLength == |EncodeVariableHeader(r.varHeader)| + |EncodePayload(r.payload)|
  {
    var vh := VariableHeader(ProtocolName, 4, MakeFlags(auth, cleanSession, lwt), 60);
    var payload := MakePayload(clientId, lwt, auth);
    Connect(FixedHeader(CONNECT, 0, |EncodeVariableHeader(vh)| + |EncodePayload(payload)|), vh, payload)
  }

  predicate Encodable(c: Connect)
  {
    |c.varHeader.protocolName| < 0x1_0000 && PayloadFits(c.payload)
  }

  function Encode(c: Connect): seq<byte>
    requires Encodable(c)
  {
    FixedHeaders.Encode(c.fixedHeader) + EncodeVariableHeader(c.varHeader) + EncodePayload(c.payload)
  }

  /** The variable header is ten bytes: 0x00 0x04 "MQTT", level 4, flags, 0x00 0x3C. */
  lemma VariableHeaderLayout(clientId: seq<byte>, keepAlive: uint16, lwt: Option<LWT>, auth: Option<Auth>, cleanSession: bool)
    requires PayloadFits(MakePayload(clientId, lwt, auth))
    ensures EncodeVariableHeader(Make(clientId, keepAlive, lwt, auth, cleanSession).varHeader)
      == [0x00, 0x04] + ProtocolName + [0x04, EncodeFlags(MakeFlags(auth, cleanSession, lwt)), 0x00, 0x3C]
  {
  }

  /** The keep-alive argument makes no difference to the packet. */
  lemma KeepAliveIgnored(clientId: seq<byte>, k1: uint16, k2: uint16, lwt: Option<LWT>, auth: Option<Auth>, cleanSession: bool)
    requires PayloadFits(MakePayload(clientId, lwt, auth))
    ensures Make(clientId, k1, lwt, auth, cleanSession) == Make(clientId, k2, lwt, auth, cleanSession)
  {
  }

  /**
   * Reads a whole CONNECT frame back, the way a server would: header 0x10, a
   * remaining length that covers exactly the rest, the variable header, then a
   * payload that agrees with the flags.
   */
  function Parse(bytes: seq<byte>): Option<Connect>
  {
    if |bytes| < 1 || bytes[0] != 0x10 then None
    else match RemainingLength(bytes)
      case Err(_) => None
      case Ok(field) =>
        var rest := bytes[field.length + 1..];
        if |rest| != field.value then None
        else match ParseBody(rest)
          case None => None
          case Some((vh, payload)) => Some(Connect(FixedHeader(CONNECT, 0, field.value), vh, payload))
  }

  /** The variable header, then a payload that agrees with its flags. */
  function ParseBody(body: seq<byte>): Option<(VariableHeader, Payload)>
  {
    match ReadLengthPrefixed(body)
    case None => None
    case Some((name, afterName)) =>
      if |afterName| < 4 then None
      else match DecodeFlags(afterName[1])
        case None => None
        case Some(flags) =>
          var vh := VariableHeader(name, afterName[0], flags, DecodeUInt16(afterName[2], afterName[3]));
          match ParsePayload(afterName[4..], flags)
          case None => None
          case Some(payload) => Some((vh, payload))
  }

  /**
   * Any encodable CONNECT whose remaining length is the size of its body and whose
   * flags agree with its payload is read back intact.
   */
  lemma ParseEncoded(c: Connect)
    requires Encodable(c) && c.fixedHeader == FixedHeader(CONNECT, 0, c.fixedHeader.remainingLength)
    requires c.fixedHeader.remainingLength == |EncodeVariableHeader(c.varHeader)| + |EncodePayload(c.payload)|
    requires c.fixedHeader.remainingLength < MaxRemainingLength
    requires Agrees(c.payload, c.varHeader.connectFlags)
    ensures Parse(Encode(c)) == Some(c)
  {
    var vh := c.varHeader;
    var payloadBytes := EncodePayload(c.payload);
    var afterName := [vh.protocolLevel, EncodeFlags(vh.connectFlags)] + EncodeUInt16(vh.keepAlive) + payloadBytes;
    var field := LengthField(c.fixedHeader.remainingLength, |VarIntBytes(c.fixedHeader.remainingLength)|);
    EncodedFrame(c);
    EncodedName(vh, payloadBytes);
    EncodedRest(vh, c.payload);
    BodySteps(EncodeVariableHeader(vh) + payloadBytes, vh, afterName, c.payload);
    ParseSteps(Encode(c), field, EncodeVariableHeader(vh) + payloadBytes, vh, c.payload);
  }

  /** The first byte is 0x10 and the length field announces exactly the variable header and payload. */
  lemma EncodedFrame(c: Connect)
    requires Encodable(c) && c.fixedHeader == FixedHeader(CONNECT, 0, c.fixedHeader.remainingLength)
    requires c.fixedHeader.remainingLength == |EncodeVariableHeader(c.varHeader)| + |EncodePayload(c.payload)|
    requires c.fixedHeader.remainingLength < MaxRemainingLength
    ensures var rl := c.fixedHeader.remainingLength;
      var n := |VarIntBytes(rl)|;
      && Encode(c)[0] == 0x10
      && RemainingLength(Encode(c)) == Ok(LengthField(rl, n))
      && Encode(c)[n + 1..] == EncodeVariableHeader(c.varHeader) + EncodePayload(c.payload)
  {
    var rl := c.fixedHeader.remainingLength;
    var body := EncodeVariableHeader(c.varHeader) + EncodePayload(c.payload);
    assert Encode(c) == [FirstByte(CONNECT, 0)] + VarIntBytes(rl) + body;
    RemainingLengthRoundTrip(FirstByte(CONNECT, 0), rl, body);
  }

  /** The protocol name is read first, leaving level, flags, keep-alive and payload. */
  lemma EncodedName(vh: VariableHeader, payloadBytes: seq<byte>)
    requires |vh.protocolName| < 0x1_0000
    ensures ReadLengthPrefixed(EncodeVariableHeader(vh) + payloadBytes)
      == Some((vh.protocolName, [vh.protocolLevel, EncodeFlags(vh.connectFlags)] + EncodeUInt16(vh.keepAlive) + payloadBytes))
  {
    var afterName := [vh.protocolLevel, EncodeFlags(vh.connectFlags)] + EncodeUInt16(vh.keepAlive) + payloadBytes;
    assert EncodeVariableHeader(vh) + payloadBytes == LengthPrefixed(vh.protocolName) + afterName;
    LengthPrefixedRoundTrip(vh.protocolName, afterName);
  }

  /** After the name: level, flags and keep-alive read back and the payload follows. */
  lemma EncodedRest(vh: VariableHeader, p: Payload)
    requires PayloadFits(p) && Agrees(p, vh.connectFlags)
    ensures var afterName := [vh.protocolLevel, EncodeFlags(vh.connectFlags)] + EncodeUInt16(vh.keepAlive) + EncodePayload(p);
      && |afterName| >= 4 && afterName[0] == vh.protocolLevel
      && DecodeFlags(afterName[1]) == Some(vh.connectFlags)
      && DecodeUInt16(afterName[2], afterName[3]) == vh.keepAlive
      && ParsePayload(afterName[4..], vh.connectFlags) == Some(p)
  {
    var afterName := [vh.protocolLevel, EncodeFlags(vh.connectFlags)] + EncodeUInt16(vh.keepAlive) + EncodePayload(p);
    FlagsRoundTrip(vh.connectFlags);
    UInt16RoundTrip(vh.keepAlive);
    assert afterName[4..] == EncodePayload(p);
    PayloadRoundTrip(p, vh.connectFlags);
  }

  /** `Parse` unfolded: the successful path through its checks. */
  lemma ParseSteps(bytes: seq<byte>, field: LengthField, body: seq<byte>, vh: VariableHeader, payload: Payload)
    requires |bytes| >= 1 && bytes[0] == 0x10 && RemainingLength(bytes) == Ok(field)
    requires field.length + 1 <= |bytes| && bytes[field.length + 1..] == body && |body| == field.value
    requires ParseBody(body) == Some((vh, payload))
    ensures Parse(bytes) == Some(Connect(FixedHeader(CONNECT, 0, field.value), vh, payload))
  {
    var rest := bytes[RemainingLength(bytes).value.length + 1..];
    assert rest == body && |rest| == field.value;
  }

  /** `ParseBody` unfolded. */
  lemma BodySteps(body: seq<byte>, vh: VariableHeader, afterName: seq<byte>, payload: Payload)
    requires ReadLengthPrefixed(body) == Some((vh.protocolName, afterName))
    requires |afterName| >= 4 && afterName[0] == vh.protocolLevel
    requires DecodeFlags(afterName[1]) == Some(vh.connectFlags)
    requires DecodeUInt16(afterName[2], afterName[3]) == vh.keepAlive
    requires ParsePayload(afterName[4..], vh.connectFlags) == Some(payload)
    ensures ParseBody(body) == Some((vh, payload))
  {
  }

  /** Every CONNECT the builder makes is read back intact. */
  lemma RoundTrip(clientId: seq<byte>, keepAlive: uint16, lwt: Option<LWT>, auth: Option<Auth>, cleanSession: bool)
    requires PayloadFits(MakePayload(clientId, lwt, auth))
    requires |EncodePayload(MakePayload(clientId, lwt, auth))| + 10 < MaxRemainingLength
    ensures var c := Make(clientId, keepAlive, lwt, auth, cleanSession);
      Encodable(c) && Parse(Encode(c)) == Some(c)
  {
    MadeAgrees(clientId, lwt, auth, cleanSession);
    ParseEncoded(Make(clientId, keepAlive, lwt, auth, cleanSession));
  }

  /** "swift-1" in ASCII. */
  const SwiftClientId: seq<byte> := [0x73, 0x77, 0x69, 0x66, 0x74, 0x2D, 0x31]

  /** The byte vector of the CONNECT test: client "swift-1", no will, no credentials. */
  lemma Vector()
    ensures Make(SwiftClientId, 60, None, None, true).fixedHeader == FixedHeader(CONNECT, 0, 19)
    ensures Encode(Make(SwiftClientId, 60, None, None, true))
      == [0x10, 0x13, 0x00, 0x04, 0x4D, 0x51, 0x54, 0x54, 0x04, 0x02, 0x00, 0x3C, 0x00, 0x07] + SwiftClientId
  {
    SevenByteClientLayout(SwiftClientId);
  }

  /** The layout of that test for any seven-byte client identifier. */
  lemma SevenByteClientLayout(clientId: seq<byte>)
    requires |clientId| == 7
    ensures Make(clientId, 60, None, None, true).fixedHeader == FixedHeader(CONNECT, 0, 19)
    ensures Encode(Make(clientId, 60, None, None, true))
      == [0x10, 0x13, 0x00, 0x04, 0x4D, 0x51, 0x54, 0x54, 0x04, 0x02, 0x00, 0x3C, 0x00, 0x07] + clientId
  {
    SevenByteClientHeaders(clientId);
    SevenByteClientPayload(clientId);
  }

  /** Its fixed header and variable header. */
  lemma SevenByteClientHeaders(clientId: seq<byte>)
    requires |clientId| == 7
    ensures var c := Make(clientId, 60, None, None, true);
      && c.fixedHeader == FixedHeader(CONNECT, 0, 19)
      && FixedHeaders.Encode(c.fixedHeader) == [0x10, 0x13]
      && EncodeVariableHeader(c.varHeader) == [0x00, 0x04, 0x4D, 0x51, 0x54, 0x54, 0x04, 0x02, 0x00, 0x3C]
  {
    VarIntStep(19);
    VariableHeaderLayout(clientId, 60, None, None, true);
    assert EncodeFlags(MakeFlags(None, true, None)) == 0x02;
  }

  /** Its payload: the client identifier behind its two-byte length. */
  lemma SevenByteClientPayload(clientId: seq<byte>)
    requires |clientId| == 7
    ensures EncodePayload(Make(clientId, 60, None, None, true).payload) == [0x00, 0x07] + clientId
  {
    assert EncodeUInt16(7) == [0x00, 0x07];
  }
}
