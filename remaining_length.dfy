/**
 * `decodeRemainigLength`: reads the Remaining Length field that starts at
 * byte 1 of a frame (byte 0 holds the type and flags).
 */
module RemainingLengthDecoding {
  import opened Wrappers
  import opened Wire
  import opened Errors

  /** The decoded value and the number of length bytes it occupied. */
  datatype LengthField = LengthField(value: nat, length: nat)

  const MalformedLength: MQTTError := DecodePacketError("Malformed remaining length")

  /**
   * The decoder's loop as a recursive function: `index` is the position of the
   * byte about to be read, `multiplier` is 128^(index-1) and `value` the sum so
   * far. A fifth length byte makes the multiplier exceed 128^4 and is rejected;
   * a byte missing from `data` is rejected too (the bounds guard).
   */
  function ReadLength(data: seq<byte>, index: nat, multiplier: nat, value: nat): (r: Result<LengthField, MQTTError>)
    requires 1 <= index <= 5
    ensures r.Ok? ==> index <= r.value.length <= 4 && r.value.length < |data|
    decreases 5 - index
  {
    if index >= |data| then Err(MalformedLength)
    else
      var encodedByte := data[index];
      var v := value + (encodedByte % 128) * multiplier;
      if index == 5 then Err(MalformedLength)
      else if encodedByte < 128 then Ok(LengthField(v, index))
      else ReadLength(data, index + 1, multiplier * 128, v)
  }

  /** The result of decoding the length field of `data`. */
  function RemainingLength(data: seq<byte>): (r: Result<LengthField, MQTTError>)
    ensures r.Ok? ==> 1 <= r.value.length <= 4 && r.value.length < |data|
  {
    ReadLength(data, 1, 1, 0)
  }

  /** A second byte below 128 is a whole length field on its own. */
  lemma OneByteLength(data: seq<byte>)
    requires |data| >= 2 && data[1] < 128
    ensures RemainingLength(data) == Ok(LengthField(data[1], 1))
  {
    assert data[1] % 128 == data[1];
  }

  /**
   * Every byte the unguarded loop reads is present: starting at `index`, each
   * byte with bit 7 set is followed by another one, up to the fifth.
   */
  predicate ReadsInBounds(data: seq<byte>, index: nat)
    requires index <= 5
    decreases 5 - index
  {
    index < |data| && (index < 5 && data[index] >= 128 ==> ReadsInBounds(data, index + 1))
  }

  /**
   * The loop as written: the bounds guard is commented out, so the caller must
   * supply every byte the loop will read.
   */
  method DecodeRemainingLengthAsWritten(data: seq<byte>) returns (r: Result<LengthField, MQTTError>)
    requires ReadsInBounds(data, 1)
    ensures r == RemainingLength(data)
  {
    var multiplier: nat := 1;
    var value: nat := 0;
    var index := 1;
    while true
      invariant 1 <= index <= 5
      invariant multiplier == Pow128(index - 1)
      invariant ReadsInBounds(data, index)
      invariant ReadLength(data, index, multiplier, value) == RemainingLength(data)
      decreases 5 - index
    {
      var encodedByte := data[index];
      ReadStep(data, index, multiplier, value);
      value := value + (encodedByte % 128) * multiplier;
      multiplier := multiplier * 128;
      index := index + 1;
      if multiplier > Pow128(4) {
        return Err(MalformedLength);
      }
      if encodedByte < 128 {
        return Ok(LengthField(value, index - 1));
      }
    }
  }

  /** The loop with its bounds guard restored: a short buffer is rejected, not read past. */
  method DecodeRemainingLength(data: seq<byte>) returns (r: Result<LengthField, MQTTError>)
    ensures r == RemainingLength(data)
  {
    var multiplier: nat := 1;
    var value: nat := 0;
    var index := 1;
    while true
      invariant 1 <= index <= 5
      invariant multiplier == Pow128(index - 1)
      invariant ReadLength(data, index, multiplier, value) == RemainingLength(data)
      decreases 5 - index
    {
      if index >= |data| {
        return Err(MalformedLength);
      }
      var encodedByte := data[index];
      ReadStep(data, index, multiplier, value);
      value := value + (encodedByte % 128) * multiplier;
      multiplier := multiplier * 128;
      index := index + 1;
      if multiplier > Pow128(4) {
        return Err(MalformedLength);
      }
      if encodedByte < 128 {
        return Ok(LengthField(value, index - 1));
      }
    }
  }

  /** One pass of the loop: what reading the byte at `index` does to the multiplier and to the decoded field. */
  lemma ReadStep(data: seq<byte>, index: nat, multiplier: nat, value: nat)
    requires 1 <= index <= 5 && index < |data| && multiplier == Pow128(index - 1)
    ensures multiplier * 128 == Pow128(index) && (data[index] % 128) * multiplier >= 0
    ensures multiplier * 128 > Pow128(4) <==> index == 5
    ensures index == 5 ==> ReadLength(data, index, multiplier, value) == Err(MalformedLength)
    ensures index < 5 && data[index] < 128 ==>
      ReadLength(data, index, multiplier, value) == Ok(LengthField(value + (data[index] % 128) * multiplier, index))
    ensures index < 5 && data[index] >= 128 ==>
      ReadLength(data, index, multiplier, value) == ReadLength(data, index + 1, multiplier * 128, value + (data[index] % 128) * multiplier)
  {
    MultiplierBound(index);
  }

  /** After reading the byte at `index`, the multiplier 128^index exceeds 128^4 exactly when index is 5. */
  lemma MultiplierBound(index: nat)
    requires 1 <= index <= 5
    ensures Pow128(index) > Pow128(4) <==> index == 5
  {
    assert Pow128(5) == 128 * Pow128(4);
    if index < 4 {
      PowMonotone(index, 4);
    }
  }

  lemma {:induction false} PowMonotone(i: nat, j: nat)
    requires i < j
    ensures Pow128(i) < Pow128(j)
    decreases j
  {
    if i < j - 1 {
      PowMonotone(i, j - 1);
    }
  }

  /**
   * What a successful decode means: the field ends at the first length byte with
   * bit 7 clear, within bytes 1..4, and the value is the sum of its seven-bit groups.
   */
  lemma RemainingLengthMeaning(data: seq<byte>)
    requires RemainingLength(data).Ok?
    ensures var f := RemainingLength(data).value;
      && 1 <= f.length <= 4 && f.length < |data|
      && data[f.length] < 128
      && (forall i :: 1 <= i < f.length ==> data[i] >= 128)
      && f.value == GroupsValue(data[1..f.length + 1])
      && f.value < MaxRemainingLength
  {
    ReadLengthMeaning(data, 1, 1, 0);
    var f := RemainingLength(data).value;
    GroupsBound(data[1..f.length + 1]);
    assert Pow128(4) == MaxRemainingLength;
    if f.length < 4 {
      PowMonotone(f.length, 4);
    }
  }

  lemma {:induction false} ReadLengthMeaning(data: seq<byte>, index: nat, multiplier: nat, value: nat)
    requires 1 <= index <= 5
    requires ReadLength(data, index, multiplier, value).Ok?
    ensures var f := ReadLength(data, index, multiplier, value).value;
      && index <= f.length <= 4 && f.length < |data|
      && data[f.length] < 128
      && (forall i :: index <= i < f.length ==> data[i] >= 128)
      && f.value == value + multiplier * GroupsValue(data[index..f.length + 1])
    decreases 5 - index
  {
    var encodedByte := data[index];
    if encodedByte < 128 {
      assert data[index..index + 1] == [encodedByte];
    } else {
      var v := value + (encodedByte % 128) * multiplier;
      ReadLengthMeaning(data, index + 1, multiplier * 128, v);
      var f := ReadLength(data, index, multiplier, value).value;
      var groups := data[index..f.length + 1];
      assert groups[1..] == data[index + 1..f.length + 1];
      GroupStep(value, multiplier, encodedByte % 128, GroupsValue(groups[1..]));
    }
  }

  /** One group more: the arithmetic step shared by the decoder proofs. */
  lemma GroupStep(value: nat, multiplier: nat, low: nat, high: nat)
    ensures value + low * multiplier + multiplier * 128 * high == value + multiplier * (low + 128 * high)
  {
    calc {
      multiplier * (low + 128 * high);
      multiplier * low + multiplier * (128 * high);
      { assert multiplier * (128 * high) == multiplier * 128 * high; }
      low * multiplier + multiplier * 128 * high;
    }
  }

  /** A run of at most four groups denotes less than 128^|s|. */
  lemma {:induction false} GroupsBound(s: seq<byte>)
    ensures GroupsValue(s) < Pow128(|s|)
  {
    if s != [] {
      GroupsBound(s[1..]);
    }
  }

  /**
   * The decoder fails exactly when no terminating byte (bit 7 clear) occurs
   * among the bytes 1..4 that are present.
   */
  lemma RemainingLengthFailure(data: seq<byte>)
    ensures RemainingLength(data).Err? <==>
      forall i :: 1 <= i < |data| && i <= 4 ==> data[i] >= 128
    ensures RemainingLength(data).Err? ==> RemainingLength(data).error == MalformedLength
  {
    ReadLengthFailure(data, 1, 1, 0);
  }

  lemma {:induction false} ReadLengthFailure(data: seq<byte>, index: nat, multiplier: nat, value: nat)
    requires 1 <= index <= 5
    ensures ReadLength(data, index, multiplier, value).Err? <==>
      forall i :: index <= i < |data| && i <= 4 ==> data[i] >= 128
    ensures ReadLength(data, index, multiplier, value).Err? ==>
      ReadLength(data, index, multiplier, value).error == MalformedLength
    decreases 5 - index
  {
    if index < |data| && index < 5 && data[index] >= 128 {
      ReadLengthFailure(data, index + 1, multiplier * 128, value + (data[index] % 128) * multiplier);
    }
  }

  /** Round trip with the encoder: the header byte is skipped and the length recovered. */
  lemma RemainingLengthRoundTrip(first: byte, x: nat, rest: seq<byte>)
    requires x < MaxRemainingLength
    ensures RemainingLength([first] + VarIntBytes(x) + rest) == Ok(LengthField(x, |VarIntBytes(x)|))
  {
    var data := [first] + VarIntBytes(x) + rest;
    VarIntAtMostFour(x);
    VarIntValue(x);
    VarIntContinuation(x);
    ReadVarInt(data, 1, 1, 0, x);
  }

  lemma {:induction false} ReadVarInt(data: seq<byte>, index: nat, multiplier: nat, value: nat, x: nat)
    requires 1 <= index <= 4
    requires index - 1 + |VarIntBytes(x)| <= 4
    requires index + |VarIntBytes(x)| <= |data|
    requires data[index..index + |VarIntBytes(x)|] == VarIntBytes(x)
    ensures ReadLength(data, index, multiplier, value)
      == Ok(LengthField(value + multiplier * x, index - 1 + |VarIntBytes(x)|))
    decreases x
  {
    var e := VarIntBytes(x);
    assert data[index] == e[0];
    VarIntStep(x);
    if x >= 128 {
      assert e[1..] == VarIntBytes(x / 128);
      assert data[index + 1..index + 1 + |VarIntBytes(x / 128)|] == VarIntBytes(x / 128);
      ReadVarInt(data, index + 1, multiplier * 128, value + (x % 128) * multiplier, x / 128);
      GroupStep(value, multiplier, x % 128, x / 128);
    }
  }

  /** Once the whole field is buffered, bytes arriving later do not change the decode. */
  lemma LengthPrefixStable(data: seq<byte>, more: seq<byte>)
    requires RemainingLength(data).Ok?
    ensures RemainingLength(data + more) == RemainingLength(data)
  {
    ReadLengthPrefix(data, more, 1, 1, 0);
  }

  lemma {:induction false} ReadLengthPrefix(data: seq<byte>, more: seq<byte>, index: nat, multiplier: nat, value: nat)
    requires 1 <= index <= 5
    requires ReadLength(data, index, multiplier, value).Ok?
    ensures ReadLength(data + more, index, multiplier, value) == ReadLength(data, index, multiplier, value)
    decreases 5 - index
  {
    var b := data[index];
    assert (data + more)[index] == b;
    if index < 5 && b >= 128 {
      ReadLengthPrefix(data, more, index + 1, multiplier * 128, value + (b % 128) * multiplier);
    }
  }

  /**
   * Byte 0 is never read: whatever the type and flags byte, the decode is the same.
   */
  lemma FirstByteIgnored(data: seq<byte>, b: byte)
    requires |data| >= 1
    ensures RemainingLength([b] + data[1..]) == RemainingLength(data)
  {
    var other := [b] + data[1..];
    ReadLengthIgnoresBefore(data, other, 1, 1, 0);
  }

  lemma {:induction false} ReadLengthIgnoresBefore(data: seq<byte>, other: seq<byte>, index: nat, multiplier: nat, value: nat)
    requires 1 <= index <= 5
    requires |data| == |other| >= 1 && data[1..] == other[1..]
    ensures ReadLength(other, index, multiplier, value) == ReadLength(data, index, multiplier, value)
    decreases 5 - index
  {
    if index < |data| {
      assert data[index] == data[1..][index - 1] == other[1..][index - 1] == other[index];
      if index < 5 {
        ReadLengthIgnoresBefore(data, other, index + 1, multiplier * 128, value + (data[index] % 128) * multiplier);
      }
    }
  }

  /**
   * The unguarded loop is safe on any buffer that holds a complete field: a
   * successful decode implies every byte read was present.
   */
  lemma SuccessReadsInBounds(data: seq<byte>)
    requires RemainingLength(data).Ok?
    ensures ReadsInBounds(data, 1)
  {
    SuccessReadsInBoundsFrom(data, 1, 1, 0);
  }

  lemma {:induction false} SuccessReadsInBoundsFrom(data: seq<byte>, index: nat, multiplier: nat, value: nat)
    requires 1 <= index <= 5
    requires ReadLength(data, index, multiplier, value).Ok?
    ensures ReadsInBounds(data, index)
    decreases 5 - index
  {
    if index < 5 && data[index] >= 128 {
      SuccessReadsInBoundsFrom(data, index + 1, multiplier * 128, value + (data[index] % 128) * multiplier);
    }
  }
}
