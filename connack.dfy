/** The CONNACK return codes (MQTT 3.1.1, section 3.2.2.3). */
module ConnectReturnCodes {
  import opened Wrappers

  datatype ConnectReturnCode =
    | ConnectionAccepted
    | UnacceptableProtocolVersion
    | IdentifierRejected
    | ServerUnavailable
    | BadAuth
    | Unauthorized
    | Reserved

  /** The raw values: 0 to 5, and `Reserved` numbered implicitly as 6. */
  function RawValue(c: ConnectReturnCode): (r: int)
    ensures 0 <= r <= 6
  {
    match c
    case ConnectionAccepted => 0
    case UnacceptableProtocolVersion => 1
    case IdentifierRejected => 2
    case ServerUnavailable => 3
    case BadAuth => 4
    case Unauthorized => 5
    case Reserved => 6
  }

  /** `ConnectReturnCode(rawValue:)`: defined for 0 to 6 only. */
  function FromRaw(n: int): (r: Option<ConnectReturnCode>)
    ensures r.Some? <==> 0 <= n <= 6
    ensures r.Some? ==> RawValue(r.value) == n
  {
    if n == 0 then Some(ConnectionAccepted)
    else if n == 1 then Some(UnacceptableProtocolVersion)
    else if n == 2 then Some(IdentifierRejected)
    else if n == 3 then Some(ServerUnavailable)
    else if n == 4 then Some(BadAuth)
    else if n == 5 then Some(Unauthorized)
    else if n == 6 then Some(Reserved)
    else None
  }

  lemma ReturnCodeRoundTrip(c: ConnectReturnCode)
    ensures FromRaw(RawValue(c)) == Some(c)
  {
  }
}

/** CONNACK (MQTT 3.1.1, section 3.2): the server's answer to CONNECT. */
module ConnackCodec {
  import opened Wrappers
  import opened Wire
  import opened ControlPacketType
  import opened Errors
  import opened FixedHeaders
  import opened HeaderGuards
  import opened ConnectReturnCodes

  datatype Connack = Connack(fixedHeader: FixedHeader, sessionPresent: byte, returnCode: ConnectReturnCode)

  /** `Connack(returnCode:sessionPresent:)`. */
  function Make(returnCode: ConnectReturnCode, sessionPresent: bool): Connack
  {
    Connack(FixedHeader(CONNACK, 0, 2), if sessionPresent then 1 else 0, returnCode)
  }

  /** `ConnackVariableHeader.encode`: session-present byte, then the return code. */
  function EncodeVariableHeader(c: Connack): seq<byte>
  {
    [c.sessionPresent, ConnectReturnCodes.RawValue(c.returnCode)]
  }

  function Encode(c: Connack): seq<byte>
  {
    FixedHeaders.Encode(c.fixedHeader) + EncodeVariableHeader(c)
  }

  /**
   * `Connack(bytes:)`. It reads bytes 0 to 3 without a length check, so a caller
   * must supply four bytes. It accepts exactly 0x20 0x02, a session-present byte
   * of 0 or 1, and a return code from 0 to 6.
   */
  function Decode(bytes: seq<byte>): (r: Result<Connack, MQTTError>)
    requires |bytes| >= 4
    ensures r.Ok? <==> bytes[0] == 0x20 && bytes[1] == 2 && bytes[2] <= 1 && bytes[3] <= 6
    ensures r.Ok? ==> Encode(r.value) == bytes[..4]
    ensures r.Ok? ==> r.value.fixedHeader == FixedHeader(CONNACK, 0, 2)
  {
    match CheckTypeAndFlags(bytes[0], CONNACK, CONNACK, 0)
    case Some(reason) => Err(Malformed(reason))
    case None =>
      if bytes[1] != 2 then Err(Malformed(InvalidRemainingLength))
      else if bytes[2] != 0 && bytes[2] != 1 then Err(Malformed(ReservedBitModified))
      else match ConnectReturnCodes.FromRaw(bytes[3])
        case None => Err(Malformed(InvalidReturnCode))
        case Some(code) => Ok(Connack(FixedHeader(CONNACK, 0, 2), bytes[2], code))
  }

  /** The rejections after the type and flags checks, in the order they are made. */
  lemma DecodeRejections(bytes: seq<byte>)
    requires |bytes| >= 4 && bytes[0] == 0x20
    ensures bytes[1] != 2 ==> Decode(bytes) == Err(Malformed(InvalidRemainingLength))
    ensures bytes[1] == 2 && bytes[2] > 1 ==> Decode(bytes) == Err(Malformed(ReservedBitModified))
    ensures bytes[1] == 2 && bytes[2] <= 1 && bytes[3] > 6 ==> Decode(bytes) == Err(Malformed(InvalidReturnCode))
  {
  }

  /** A CONNACK encodes to exactly four bytes: 0x20 0x02, session present, return code. */
  lemma EncodeLayout(returnCode: ConnectReturnCode, sessionPresent: bool)
    ensures Encode(Make(returnCode, sessionPresent))
      == [0x20, 0x02, if sessionPresent then 1 else 0, ConnectReturnCodes.RawValue(returnCode)]
  {
  }

  lemma RoundTrip(returnCode: ConnectReturnCode, sessionPresent: bool)
    ensures Decode(Encode(Make(returnCode, sessionPresent))) == Ok(Make(returnCode, sessionPresent))
  {
    EncodeLayout(returnCode, sessionPresent);
  }

  /** The byte vector of the accepted-connection test. */
  lemma AcceptedVector()
    ensures Decode([0x20, 0x02, 0x00, 0x00]) == Ok(Make(ConnectionAccepted, false))
    ensures Encode(Make(ConnectionAccepted, false)) == [0x20, 0x02, 0x00, 0x00]
  {
  }
}
