/**
 * Shared wire helpers: the Remaining Length variable-length integer
 * (MQTT 3.1.1, section 2.2.3) and big-endian two-byte integers (section 1.5.2).
 */
module Wire {
  import opened Wrappers

  type byte = b: int | 0 <= b < 0x100
  type uint16 = n: int | 0 <= n < 0x1_0000

  /** The Remaining Length field may not exceed four bytes: values stay below 128^4. */
  const MaxRemainingLength: nat := 268_435_456

  function Pow128(k: nat): (r: nat)
    ensures r >= 1
  {
    if k == 0 then 1 else 128 * Pow128(k - 1)
  }

  /**
   * The bytes `encodeUInt` produces: seven-bit groups, least significant first,
   * bit 7 set on every byte but the last.
   */
  function VarIntBytes(x: nat): (r: seq<byte>)
    ensures |r| >= 1
    decreases x
  {
    if x < 128 then [x] else [x % 128 + 128] + VarIntBytes(x / 128)
  }

  /** The value a run of length bytes denotes: the sum of (s[i] & 0x7F) * 128^i. */
  function GroupsValue(s: seq<byte>): nat
  {
    if s == [] then 0 else s[0] % 128 + 128 * GroupsValue(s[1..])
  }

  /** `encodeUInt`: the repeat-loop that peels off seven bits at a time. */
  method EncodeUInt(input: nat) returns (output: seq<byte>)
    ensures output == VarIntBytes(input)
  {
    output := [];
    var x := input;
    while true
      invariant output + VarIntBytes(x) == VarIntBytes(input)
      decreases x
    {
      ghost var before := x;
      VarIntStep(before);
      var encodedByte := x % 128;
      x := x / 128;
      if x > 0 {
        encodedByte := encodedByte + 128;
      }
      assert VarIntBytes(before) == [encodedByte] + (if x == 0 then [] else VarIntBytes(x));
      output := output + [encodedByte];
      if x == 0 {
        break;
      }
    }
  }

  /** One loop iteration: the low group, then the encoding of what is left. */
  lemma VarIntStep(x: nat)
    ensures x < 128 <==> x / 128 == 0
    ensures x > 0 ==> x / 128 < x
    ensures x < 128 ==> VarIntBytes(x) == [x % 128]
    ensures x >= 128 ==> VarIntBytes(x) == [x % 128 + 128] + VarIntBytes(x / 128)
  {
  }

  lemma VarIntOfZero()
    ensures VarIntBytes(0) == [0x00]
  {
  }

  /** Bit 7 is set on every byte but the last, so a reader knows where the field ends. */
  lemma {:induction false} VarIntContinuation(x: nat)
    ensures forall i :: 0 <= i < |VarIntBytes(x)| - 1 ==> VarIntBytes(x)[i] >= 128
    ensures VarIntBytes(x)[|VarIntBytes(x)| - 1] < 128
    decreases x
  {
    if x >= 128 {
      VarIntContinuation(x / 128);
      assert VarIntBytes(x)[1..] == VarIntBytes(x / 128);
    }
  }

  /** The encoded groups add back up to the input. */
  lemma {:induction false} VarIntValue(x: nat)
    ensures GroupsValue(VarIntBytes(x)) == x
    decreases x
  {
    if x >= 128 {
      VarIntValue(x / 128);
      assert VarIntBytes(x)[1..] == VarIntBytes(x / 128);
    }
  }

  /** The encoding is minimal: no trailing zero group unless the input is 0. */
  lemma {:induction false} VarIntMinimal(x: nat)
    ensures x > 0 ==> VarIntBytes(x)[|VarIntBytes(x)| - 1] != 0
    decreases x
  {
    if x >= 128 {
      VarIntMinimal(x / 128);
      assert VarIntBytes(x)[1..] == VarIntBytes(x / 128);
    }
  }

  /** The encoding fits in k bytes exactly when the value is below 128^k. */
  lemma {:induction false} VarIntLength(x: nat, k: nat)
    requires k >= 1
    ensures |VarIntBytes(x)| <= k <==> x < Pow128(k)
    decreases x
  {
    if x >= 128 {
      if k == 1 {
        assert Pow128(1) == 128;
      } else {
        VarIntLength(x / 128, k - 1);
      }
    } else {
      assert Pow128(k) >= 128 by { PowAtLeast(k); }
    }
  }

  lemma {:induction false} PowAtLeast(k: nat)
    requires k >= 1
    ensures Pow128(k) >= 128
  {
    if k > 1 {
      PowAtLeast(k - 1);
    }
  }

  /** Lengths below 268,435,456 take one to four bytes. */
  lemma VarIntAtMostFour(x: nat)
    ensures x < MaxRemainingLength <==> |VarIntBytes(x)| <= 4
  {
    assert Pow128(4) == MaxRemainingLength;
    VarIntLength(x, 4);
  }

  /** `encodeUInt16`: high byte first. */
  function EncodeUInt16(x: uint16): (r: seq<byte>)
    ensures |r| == 2 && (r[0] as int) * 256 + r[1] as int == x
  {
    [x / 256, x % 256]
  }

  /** `(UInt16(msb) << 8) | UInt16(lsb)`, how every decoder reads a packet identifier. */
  function DecodeUInt16(msb: byte, lsb: byte): (r: uint16)
    ensures r / 256 == msb && r % 256 == lsb
  {
    msb * 256 + lsb
  }

  lemma UInt16RoundTrip(x: uint16)
    ensures DecodeUInt16(EncodeUInt16(x)[0], EncodeUInt16(x)[1]) == x
  {
  }

  /** A two-byte big-endian length followed by the bytes, as every string field is written. */
  function LengthPrefixed(s: seq<byte>): (r: seq<byte>)
    requires |s| < 0x1_0000
  {
    EncodeUInt16(|s|) + s
  }

  /** Reads back one length-prefixed field: the reference inverse of LengthPrefixed. */
  function ReadLengthPrefixed(bytes: seq<byte>): Option<(seq<byte>, seq<byte>)>
  {
    if |bytes| < 2 then None
    else
      var n := DecodeUInt16(bytes[0], bytes[1]);
      if |bytes| < 2 + n then None else Some((bytes[2..2 + n], bytes[2 + n..]))
  }

  lemma LengthPrefixedRoundTrip(s: seq<byte>, rest: seq<byte>)
    requires |s| < 0x1_0000
    ensures ReadLengthPrefixed(LengthPrefixed(s) + rest) == Some((s, rest))
  {
    var b := LengthPrefixed(s) + rest;
    assert b[2..2 + |s|] == s;
    assert b[2 + |s|..] == rest;
  }

  /** Quotient and remainder are the only such pair. */
  lemma DivModUnique(x: int, d: int, k: int, m: int)
    requires d > 0 && 0 <= m < d && x == d * k + m
    ensures x / d == k && x % d == m
  {
    var k', m' := x / d, x % d;
    assert d * (k - k') == m' - m;
    if k > k' {
      MulAtLeast(d, k - k');
    } else if k < k' {
      MulAtLeast(d, k' - k);
    }
  }

  lemma MulAtLeast(d: int, n: int)
    requires d > 0 && n >= 1
    ensures d * n >= d
  {}
}
