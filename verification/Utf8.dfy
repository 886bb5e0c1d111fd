/** Well-formed UTF-8, the invariant of Rust's `String` (section 4 of RFC 3629). */
module Utf8 {
  import opened Bytes

  predicate IsTail(b: Byte) {
    0x80 <= b <= 0xBF
  }

  /** The second byte of a multi-byte sequence excludes overlong forms, surrogates and values past U+10FFFF. */
  predicate IsSecond(lead: Byte, b: Byte) {
    if lead == 0xE0 then 0xA0 <= b <= 0xBF
    else if lead == 0xED then 0x80 <= b <= 0x9F
    else if lead == 0xF0 then 0x90 <= b <= 0xBF
    else if lead == 0xF4 then 0x80 <= b <= 0x8F
    else IsTail(b)
  }

  /** The number of bytes in the sequence `lead` opens, 0 when it opens none. */
  function Width(lead: Byte): nat {
    if lead < 0x80 then 1
    else if 0xC2 <= lead <= 0xDF then 2
    else if 0xE0 <= lead <= 0xEF then 3
    else if 0xF0 <= lead <= 0xF4 then 4
    else 0
  }

  predicate IsScalar(s: seq<Byte>)
    requires s != []
  {
    var n := Width(s[0]);
    && 0 < n <= |s|
    && (n >= 2 ==> IsSecond(s[0], s[1]))
    && (n >= 3 ==> IsTail(s[2]))
    && (n >= 4 ==> IsTail(s[3]))
  }

  predicate ValidUtf8(s: seq<Byte>) {
    s == [] || (IsScalar(s) && ValidUtf8(s[Width(s[0])..]))
  }

  // ----- what it accepts -----

  /** A Unicode scalar value: a code point that is not a surrogate. */
  type Scalar = c: int | 0 <= c <= 0xD7FF || 0xE000 <= c <= 0x10FFFF

  /** The table of section 3 of RFC 3629. */
  function EncodeScalar(c: Scalar): (b: seq<Byte>)
    ensures 1 <= |b| <= 4
  {
    if c <= 0x7F then [c]
    else if c <= 0x7FF then [0xC0 + c / 0x40, 0x80 + c % 0x40]
    else if c <= 0xFFFF then [0xE0 + c / 0x1000, 0x80 + c / 0x40 % 0x40, 0x80 + c % 0x40]
    else [0xF0 + c / 0x4_0000, 0x80 + c / 0x1000 % 0x40, 0x80 + c / 0x40 % 0x40, 0x80 + c % 0x40]
  }

  function EncodeText(text: seq<Scalar>): seq<Byte> {
    if text == [] then [] else EncodeScalar(text[0]) + EncodeText(text[1..])
  }

  /** Six more bits. */
  function Shifted(high: int, tail: int): int {
    0x40 * high + (tail - 0x80)
  }

  lemma ShiftedSplits(high: int, tail: Byte)
    requires IsTail(tail)
    ensures Shifted(high, tail) / 0x40 == high && 0x80 + Shifted(high, tail) % 0x40 == tail
  {
  }

  /** The scalar value that the bytes at the front of `s` encode. */
  function DecodeScalar(s: seq<Byte>): (c: Scalar)
    requires s != [] && IsScalar(s)
  {
    var lead: int := s[0];
    if Width(s[0]) == 1 then s[0]
    else if Width(s[0]) == 2 then Shifted(lead - 0xC0, s[1])
    else if Width(s[0]) == 3 then Shifted(Shifted(lead - 0xE0, s[1]), s[2])
    else Shifted(Shifted(Shifted(lead - 0xF0, s[1]), s[2]), s[3])
  }

  lemma ScalarRoundTrip(s: seq<Byte>)
    requires s != [] && IsScalar(s)
    ensures EncodeScalar(DecodeScalar(s)) == s[..Width(s[0])]
  {
    var lead: int := s[0];
    if Width(s[0]) == 2 {
      ShiftedSplits(lead - 0xC0, s[1]);
    } else if Width(s[0]) == 3 {
      var high := Shifted(lead - 0xE0, s[1]);
      ShiftedSplits(lead - 0xE0, s[1]);
      ShiftedSplits(high, s[2]);
      assert DecodeScalar(s) / 0x1000 == high / 0x40;
    } else if Width(s[0]) == 4 {
      var high := Shifted(lead - 0xF0, s[1]);
      var middle := Shifted(high, s[2]);
      ShiftedSplits(lead - 0xF0, s[1]);
      ShiftedSplits(high, s[2]);
      ShiftedSplits(middle, s[3]);
      assert DecodeScalar(s) / 0x1000 == high && DecodeScalar(s) / 0x4_0000 == high / 0x40;
    }
  }

  lemma EncodedIsScalar(c: Scalar, t: seq<Byte>)
    ensures var s := EncodeScalar(c) + t; IsScalar(s) && Width(s[0]) == |EncodeScalar(c)|
  {
    var b := EncodeScalar(c);
    assert forall i :: 0 <= i < |b| ==> (b + t)[i] == b[i];
  }

  lemma {:induction false} ValidIsText(s: seq<Byte>) returns (text: seq<Scalar>)
    requires ValidUtf8(s)
    ensures EncodeText(text) == s
    decreases |s|
  {
    if s == [] {
      text := [];
    } else {
      var n := Width(s[0]);
      var c := DecodeScalar(s);
      var tail := ValidIsText(s[n..]);
      ScalarRoundTrip(s);
      TextCons(c, tail, s[..n], s[n..]);
      text := [c] + tail;
      assert s == s[..n] + s[n..];
    }
  }

  lemma {:induction false} TextCons(c: Scalar, text: seq<Scalar>, a: seq<Byte>, b: seq<Byte>)
    requires EncodeScalar(c) == a && EncodeText(text) == b
    ensures EncodeText([c] + text) == a + b
  {
    assert ([c] + text)[1..] == text;
  }

  lemma {:induction false} TextIsValid(text: seq<Scalar>)
    ensures ValidUtf8(EncodeText(text))
  {
    if text == [] {
    } else {
      var a, b := EncodeScalar(text[0]), EncodeText(text[1..]);
      TextIsValid(text[1..]);
      EncodedIsScalar(text[0], b);
      assert (a + b)[|a|..] == b;
    }
  }

  /** The bytes of a Rust `String` are exactly the encodings of sequences of scalar values. */
  lemma ValidIffText(s: seq<Byte>)
    ensures ValidUtf8(s) <==> exists text :: EncodeText(text) == s
  {
    if ValidUtf8(s) {
      var text := ValidIsText(s);
    }
    if text :| EncodeText(text) == s {
      TextIsValid(text);
    }
  }
}
