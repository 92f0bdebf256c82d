/**
 * The guard chain at the head of the CONNACK, PUBACK, PUBREC, PUBREL, PUBCOMP,
 * SUBACK and UNSUBACK decoders: the type nibble must name a packet type, that
 * type must be the expected one, and the flags nibble must have its fixed value.
 */
module HeaderGuards {
  import opened Wrappers
  import opened ControlPacketType
  import opened Errors
  import opened Wire

  /**
   * The first failed check, if any. `reportedType` is the type the
   * `incorrectType` error names, which one decoder gets wrong.
   */
  function CheckTypeAndFlags(b0: byte, expected: PacketType, reportedType: PacketType, expectedFlags: int): (r: Option<MalformedPacketReason>)
    ensures r.None? <==> b0 / 16 == RawValue(expected) && b0 % 16 == expectedFlags
    ensures 0 <= expectedFlags < 16 ==> (r.None? <==> b0 == RawValue(expected) * 16 + expectedFlags)
    ensures FromRaw(b0 / 16).None? ==> r == Some(InvalidType(expected, b0 / 16))
    ensures FromRaw(b0 / 16).Some? && FromRaw(b0 / 16).value != expected ==>
      r == Some(IncorrectType(reportedType, FromRaw(b0 / 16).value))
    ensures FromRaw(b0 / 16) == Some(expected) && b0 % 16 != expectedFlags ==>
      r == Some(InvalidFlags(expectedFlags, b0 % 16))
  {
    var typeBits := b0 / 16;
    match FromRaw(typeBits)
    case None => Some(InvalidType(expected, typeBits))
    case Some(t) =>
      if t != expected then Some(IncorrectType(reportedType, t))
      else if b0 % 16 != expectedFlags then Some(InvalidFlags(expectedFlags, b0 % 16))
      else None
  }
}
