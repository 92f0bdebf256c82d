/**
 * Well-formed UTF-8 (the Unicode Standard, Table 3-7; RFC 3629, section 4): the
 * byte sequences `String(bytes:encoding: .utf8)` turns into a String. Topic
 * names travel as UTF-8, and a received topic that is not well-formed is an error.
 */
module Utf8 {
  import opened Wire

  predicate Continuation(b: byte)
  {
    0x80 <= b <= 0xBF
  }

  /**
   * The length of the well-formed character at the head of `s`, or 0 when the
   * head is ill-formed: a stray continuation byte, an overlong form (C0, C1,
   * E0 80..9F, F0 80..8F), a surrogate (ED A0..BF), a value above U+10FFFF
   * (F4 90.., F5..FF) or a truncated sequence.
   */
  function CharLength(s: seq<byte>): (n: nat)
    requires |s| > 0
    ensures n <= 4 && n <= |s|
    ensures n == 1 <==> s[0] < 0x80
  {
    var b := s[0];
    if b < 0x80 then 1
    else if 0xC2 <= b <= 0xDF then
      if |s| >= 2 && Continuation(s[1]) then 2 else 0
    else if 0xE0 <= b <= 0xEF then
      var lo := if b == 0xE0 then 0xA0 else 0x80;
      var hi := if b == 0xED then 0x9F else 0xBF;
      if |s| >= 3 && lo <= s[1] <= hi && Continuation(s[2]) then 3 else 0
    else if 0xF0 <= b <= 0xF4 then
      var lo := if b == 0xF0 then 0x90 else 0x80;
      var hi := if b == 0xF4 then 0x8F else 0xBF;
      if |s| >= 4 && lo <= s[1] <= hi && Continuation(s[2]) && Continuation(s[3]) then 4 else 0
    else 0
  }

  /** `s` is a run of well-formed characters. */
  predicate WellFormed(s: seq<byte>)
    decreases |s|
  {
    s == [] || (CharLength(s) > 0 && WellFormed(s[CharLength(s)..]))
  }

  /** A Unicode scalar value: a code point that is not a surrogate. */
  predicate Scalar(c: nat)
  {
    c < 0x11_0000 && !(0xD800 <= c <= 0xDFFF)
  }

  /** The UTF-8 form of a scalar value: one to four bytes, six payload bits per continuation byte. */
  function EncodeScalar(c: nat): (r: seq<byte>)
    requires Scalar(c)
    ensures 1 <= |r| <= 4
  {
    if c < 0x80 then [c]
    else if c < 0x800 then [0xC0 + c / 64, 0x80 + c % 64]
    else if c < 0x1_0000 then [0xE0 + c / 64 / 64, 0x80 + c / 64 % 64, 0x80 + c % 64]
    else [0xF0 + c / 64 / 64 / 64, 0x80 + c / 64 / 64 % 64, 0x80 + c / 64 % 64, 0x80 + c % 64]
  }

  /** The UTF-8 form of a String: its scalar values encoded one after another. */
  function EncodeText(text: seq<nat>): (r: seq<byte>)
    requires forall i :: 0 <= i < |text| ==> Scalar(text[i])
  {
    if text == [] then [] else EncodeScalar(text[0]) + EncodeText(text[1..])
  }

  /** The decoder's reading of an encoded scalar value stops exactly where the encoding ends. */
  lemma EncodedCharLength(c: nat, rest: seq<byte>)
    requires Scalar(c)
    ensures CharLength(EncodeScalar(c) + rest) == |EncodeScalar(c)|
  {
    if c < 0x80 {
    } else if c < 0x800 {
      assert 2 <= c / 64 < 32;
    } else if c < 0x1_0000 {
      ThreeByteSecond(c);
    } else {
      FourByteSecond(c);
    }
  }

  /** E0 is followed by A0..BF (no overlong form) and ED by 80..9F (no surrogate). */
  lemma ThreeByteSecond(c: nat)
    requires 0x800 <= c < 0x1_0000 && !(0xD800 <= c <= 0xDFFF)
    ensures c / 64 / 64 == 0 ==> c / 64 % 64 >= 32
    ensures c / 64 / 64 == 13 ==> c / 64 % 64 < 32
  {
    var q := c / 64;
    assert c / 64 / 64 == 0 ==> q < 64;
    assert c / 64 / 64 == 13 ==> 832 <= q < 864;
  }

  /** F0 is followed by 90..BF (no overlong form) and F4 by 80..8F (nothing above U+10FFFF). */
  lemma FourByteSecond(c: nat)
    requires 0x1_0000 <= c < 0x11_0000
    ensures c / 64 / 64 / 64 <= 4
    ensures c / 64 / 64 / 64 == 0 ==> c / 64 / 64 % 64 >= 16
    ensures c / 64 / 64 / 64 == 4 ==> c / 64 / 64 % 64 < 16
  {
    var q := c / 64 / 64;
    assert 16 <= q < 272;
  }

  /** Every String's UTF-8 form is well-formed, so a topic the client sends always decodes. */
  lemma {:induction false} EncodedTextWellFormed(text: seq<nat>)
    requires forall i :: 0 <= i < |text| ==> Scalar(text[i])
    ensures WellFormed(EncodeText(text))
  {
    if text != [] {
      var s := EncodeText(text);
      EncodedCharLength(text[0], EncodeText(text[1..]));
      assert s[|EncodeScalar(text[0])|..] == EncodeText(text[1..]);
      EncodedTextWellFormed(text[1..]);
    }
  }

  /** ASCII text is well-formed UTF-8. */
  lemma {:induction false} AsciiWellFormed(s: seq<byte>)
    requires forall i :: 0 <= i < |s| ==> s[i] < 0x80
    ensures WellFormed(s)
  {
    if s != [] {
      AsciiWellFormed(s[1..]);
    }
  }

  /** A sequence that starts with a byte no character can start with is ill-formed. */
  lemma BadLeadByte(s: seq<byte>)
    requires |s| > 0 && (0x80 <= s[0] <= 0xC1 || s[0] >= 0xF5)
    ensures !WellFormed(s)
  {
  }
}
