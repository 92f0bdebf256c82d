/** The packet-type nibble of the fixed header (MQTT 3.1.1, section 2.2.1). */
module ControlPacketType {
  import opened Wrappers

  datatype PacketType =
    | CONNECT | CONNACK | PUBLISH | PUBACK | PUBREC | PUBREL | PUBCOMP
    | SUBSCRIBE | SUBACK | UNSUBSCRIBE | UNSUBACK | PINGREQ | PINGRESP | DISCONNECT

  /** The enum's raw value: CONNECT is 1, and the cases count up to DISCONNECT at 14. */
  function RawValue(t: PacketType): (r: int)
    ensures 1 <= r <= 14
    ensures r * 16 < 256 && (r * 16) % 16 == 0
  {
    match t
    case CONNECT => 1
    case CONNACK => 2
    case PUBLISH => 3
    case PUBACK => 4
    case PUBREC => 5
    case PUBREL => 6
    case PUBCOMP => 7
    case SUBSCRIBE => 8
    case SUBACK => 9
    case UNSUBSCRIBE => 10
    case UNSUBACK => 11
    case PINGREQ => 12
    case PINGRESP => 13
    case DISCONNECT => 14
  }

  /** `MQTTControlPacketType(rawValue:)`: fails on the reserved nibbles 0 and 15. */
  function FromRaw(n: int): (r: Option<PacketType>)
    ensures r.Some? <==> 1 <= n <= 14
    ensures r.Some? ==> RawValue(r.value) == n
  {
    if n == 1 then Some(CONNECT)
    else if n == 2 then Some(CONNACK)
    else if n == 3 then Some(PUBLISH)
    else if n == 4 then Some(PUBACK)
    else if n == 5 then Some(PUBREC)
    else if n == 6 then Some(PUBREL)
    else if n == 7 then Some(PUBCOMP)
    else if n == 8 then Some(SUBSCRIBE)
    else if n == 9 then Some(SUBACK)
    else if n == 10 then Some(UNSUBSCRIBE)
    else if n == 11 then Some(UNSUBACK)
    else if n == 12 then Some(PINGREQ)
    else if n == 13 then Some(PINGRESP)
    else if n == 14 then Some(DISCONNECT)
    else None
  }

  /** Raw values identify their case: converting back recovers it, so no two cases share one. */
  lemma RawValueRoundTrip(t: PacketType)
    ensures FromRaw(RawValue(t)) == Some(t)
  {
  }

  lemma RawValueInjective(t: PacketType, u: PacketType)
    ensures RawValue(t) == RawValue(u) ==> t == u
  {
    RawValueRoundTrip(t);
    RawValueRoundTrip(u);
  }

  /** `toString`: the case name. */
  function Name(t: PacketType): (s: string)
    ensures |s| >= 6
  {
    match t
    case CONNECT => "CONNECT"
    case CONNACK => "CONNACK"
    case PUBLISH => "PUBLISH"
    case PUBACK => "PUBACK"
    case PUBREC => "PUBREC"
    case PUBREL => "PUBREL"
    case PUBCOMP => "PUBCOMP"
    case SUBSCRIBE => "SUBSCRIBE"
    case SUBACK => "SUBACK"
    case UNSUBSCRIBE => "UNSUBSCRIBE"
    case UNSUBACK => "UNSUBACK"
    case PINGREQ => "PINGREQ"
    case PINGRESP => "PINGRESP"
    case DISCONNECT => "DISCONNECT"
  }

  /** Every case has its own name. */
  lemma NamesDistinct(t: PacketType, u: PacketType)
    ensures t != u ==> Name(t) != Name(u)
  {
  }
}
