/**
 * Quality of Service levels (MQTT 3.1.1, section 4.3), with the raw values
 * the codecs read from and write into flag bits and payload bytes.
 */
module QualityOfService {
  import opened Wrappers

  datatype QoS = AtMostOnce | AtLeastOnce | ExactlyOnce

  function RawValue(q: QoS): (r: int)
    ensures 0 <= r <= 2
  {
    match q
    case AtMostOnce => 0
    case AtLeastOnce => 1
    case ExactlyOnce => 2
  }

  /** `QoS(rawValue:)`: 0, 1 and 2 name a level; every other value fails. */
  function FromRaw(n: int): (r: Option<QoS>)
    ensures r.Some? <==> 0 <= n <= 2
    ensures r.Some? ==> RawValue(r.value) == n
  {
    if n == 0 then Some(AtMostOnce)
    else if n == 1 then Some(AtLeastOnce)
    else if n == 2 then Some(ExactlyOnce)
    else None
  }

  lemma QoSRoundTrip(q: QoS)
    ensures FromRaw(RawValue(q)) == Some(q)
  {
  }
}
