/**
 * The errors the codecs, the framer and the session raise. Two generations of
 * `MQTTError` coexist in the code base: the decoders throw
 * `protocolViolation(malformedPacket(...))`, while the Remaining Length decoder
 * still throws the older `DecodePacketError(message:)`. Both appear here as cases
 * of one datatype.
 */
module Errors {
  import opened ControlPacketType
  import opened QualityOfService
  import opened ConnectReturnCodes
  import Wire

  datatype MalformedPacketReason =
    | MissingPacketId
    | InvalidQoS
    | InvalidRemainingLength
    | InvalidType(expected: PacketType, actual: int)
    | IncorrectType(expected: PacketType, actualType: PacketType)
    | InvalidFlags(expectedFlags: int, actualFlags: int)
    | InvalidReturnCode
    | ReservedBitModified

  datatype ProtocolError =
    | MalformedPacket(reason: MalformedPacketReason)
    | UnexpectedPacket(packet: PacketType)
    | UnknownPacketId(packetId: Wire.uint16)
    | InvalidState(expectedState: string, actualState: string)

  datatype ConnectionError =
    | Rejected(returnCode: ConnectReturnCode)
    | Disconnected
    | IoFailure

  /** What a timed-out operation was waiting for. */
  datatype TimeoutKind =
    | ConnectTimeout
    | SubscribeTimeout(subscribeId: Wire.uint16)
    | UnsubTimeout(unsubId: Wire.uint16)
    | PublishTimeout(publishId: Wire.uint16, qos: QoS)
    | PingTimeout

  datatype MQTTError =
    | ConnectionFailure(connection: ConnectionError)
    | ProtocolViolation(violation: ProtocolError)
    | Timeout(kind: TimeoutKind)
    | UnexpectedError(description: string)
    | DecodePacketError(message: string)

  /** The shape every packet decoder throws. */
  function Malformed(reason: MalformedPacketReason): MQTTError
  {
    ProtocolViolation(MalformedPacket(reason))
  }
}
