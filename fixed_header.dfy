/** The fixed header every control packet starts with (MQTT 3.1.1, section 2.2). */
module FixedHeaders {
  import opened Wire
  import opened ControlPacketType
  import opened RemainingLengthDecoding
  import opened Wrappers

  datatype FixedHeader = FixedHeader(packetType: PacketType, flags: byte, remainingLength: nat)

  /**
   * `(type.rawValue << 4) | flags` on UInt8. The raw type is at most 15, so the
   * shift is a multiplication by 16 that stays within the byte. Flags are meant
   * to be a nibble, but the field is a whole byte, so the OR is taken on eight bits.
   */
  function FirstByte(t: PacketType, flags: byte): (r: byte)
    ensures flags < 16 ==> r == RawValue(t) * 16 + flags
  {
    NibbleOr(RawValue(t), flags);
    BitOr(RawValue(t) * 16, flags)
  }

  /** Bitwise OR of two naturals, one binary digit at a time from the lowest. */
  function BitOr(a: nat, b: nat): nat
    decreases a + b
  {
    if a == 0 then b
    else if b == 0 then a
    else 2 * BitOr(a / 2, b / 2) + (if a % 2 == 1 || b % 2 == 1 then 1 else 0)
  }

  function Pow2(k: nat): (r: nat)
    ensures r >= 1
  {
    if k == 0 then 1 else 2 * Pow2(k - 1)
  }

  /** OR never sets a digit above the highest digit of its operands. */
  lemma {:induction false} BitOrBelow(a: nat, b: nat, k: nat)
    requires a < Pow2(k) && b < Pow2(k)
    ensures BitOr(a, b) < Pow2(k)
    decreases k
  {
    if a != 0 && b != 0 {
      BitOrBelow(a / 2, b / 2, k - 1);
    }
  }

  /** OR with a number whose digits all lie below the other's lowest set digit is addition. */
  lemma {:induction false} BitOrDisjoint(h: nat, l: nat, k: nat)
    requires l < Pow2(k)
    ensures BitOr(h * Pow2(k), l) == h * Pow2(k) + l
    decreases k
  {
    if h * Pow2(k) != 0 && l != 0 {
      var p := Pow2(k - 1);
      assert h * Pow2(k) == 2 * (h * p);
      BitOrDisjoint(h, l / 2, k - 1);
    }
  }

  /** A type nibble shifted up and ORed with a byte stays a byte, and with a nibble is a sum. */
  lemma NibbleOr(h: nat, l: byte)
    requires h < 16
    ensures BitOr(h * 16, l) < 256
    ensures l < 16 ==> BitOr(h * 16, l) == h * 16 + l
  {
    assert Pow2(4) == 16 && Pow2(8) == 256;
    BitOrBelow(h * 16, l, 8);
    if l < 16 {
      BitOrDisjoint(h, l, 4);
    }
  }

  /** `FixedHeader.encode`: the type and flags byte, then the Remaining Length field. */
  function Encode(h: FixedHeader): (r: seq<byte>)
    ensures |r| == 1 + |VarIntBytes(h.remainingLength)|
  {
    [FirstByte(h.packetType, h.flags)] + VarIntBytes(h.remainingLength)
  }

  /**
   * An encoded header gives back its type nibble, its flags and its remaining
   * length, whatever follows it.
   */
  lemma HeaderRoundTrip(h: FixedHeader, rest: seq<byte>)
    requires h.flags < 16 && h.remainingLength < MaxRemainingLength
    ensures var data := Encode(h) + rest;
      && FromRaw(data[0] / 16) == Some(h.packetType)
      && data[0] % 16 == h.flags
      && RemainingLength(data) == Ok(LengthField(h.remainingLength, |VarIntBytes(h.remainingLength)|))
  {
    RawValueRoundTrip(h.packetType);
    RemainingLengthRoundTrip(FirstByte(h.packetType, h.flags), h.remainingLength, rest);
    assert Encode(h) + rest == [FirstByte(h.packetType, h.flags)] + VarIntBytes(h.remainingLength) + rest;
  }

  /** The header of a two-byte-body packet encodes to two bytes; CONNACK's is 0x20 0x02. */
  lemma ConnackHeaderBytes()
    ensures Encode(FixedHeader(CONNACK, 0, 2)) == [0x20, 0x02]
  {
  }

  /**
   * Splits a whole frame into its first byte and its body, as a receiver reads
   * it: the Remaining Length field must decode and cover the body exactly.
   */
  function SplitFrame(bytes: seq<byte>): Option<(byte, seq<byte>)>
  {
    if |bytes| < 1 then None
    else match RemainingLength(bytes)
      case Err(_) => None
      case Ok(field) =>
        var body := bytes[field.length + 1..];
        if |body| != field.value then None else Some((bytes[0], body))
  }

  /** An encoded header followed by a body of the announced size splits back apart. */
  lemma SplitFrameRoundTrip(h: FixedHeader, body: seq<byte>)
    requires h.remainingLength == |body| < MaxRemainingLength
    ensures SplitFrame(Encode(h) + body) == Some((FirstByte(h.packetType, h.flags), body))
  {
    var bytes := Encode(h) + body;
    assert bytes == [FirstByte(h.packetType, h.flags)] + VarIntBytes(h.remainingLength) + body;
    RemainingLengthRoundTrip(FirstByte(h.packetType, h.flags), h.remainingLength, body);
    assert bytes[|VarIntBytes(h.remainingLength)| + 1..] == body;
  }
}
