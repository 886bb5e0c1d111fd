/** Base-128 varints: the little-endian groups of seven bits every length and integer is built from. */
module Varint {
  import opened Bytes

  const MAX_BYTES := 10

  function Encode(v: nat): (s: seq<Byte>)
    ensures |s| > 0
  {
    if v < 128 then [v] else [v % 128 + 128] + Encode(v / 128)
  }

  /**
   The groups read from `s` once `k` bytes have been consumed, before reduction to 64 bits.
   The eleventh byte would shift past the word, which the code does not survive.
   */
  function DecodeFrom(s: seq<Byte>, k: nat): (p: Parse<nat>)
    ensures p.Done? ==> |p.rest| < |s|
    decreases |s|
  {
    if s == [] || k >= MAX_BYTES then Failed(Panic)
    else if s[0] < 128 then Done(s[0], s[1..])
    else
      match DecodeFrom(s[1..], k + 1)
      case Failed(why) => Failed(why)
      case Done(v, rest) => Done(s[0] - 128 + 128 * v, rest)
  }

  /** `decode_varint`: bits beyond the 64th are shifted out of the word. */
  function Decode(s: seq<Byte>): (p: Parse<UInt64>)
    ensures p.Done? ==> |p.rest| < |s|
  {
    match DecodeFrom(s, 0)
    case Failed(why) => Failed(why)
    case Done(v, rest) => Done(v % TWO_64, rest)
  }

  // ----- laws -----

  function Pow128(n: nat): (p: nat)
    ensures p > 0
  {
    if n == 0 then 1 else 128 * Pow128(n - 1)
  }

  lemma Pow128Values()
    ensures Pow128(9) == TWO_63
  {
    assert Pow128(3) == 0x20_0000;
    assert Pow128(6) == 0x400_0000_0000;
    assert Pow128(9) == 0x8000_0000_0000_0000;
  }

  lemma {:induction false} LengthBound(v: nat, n: nat)
    requires n > 0 && v < Pow128(n)
    ensures |Encode(v)| <= n
  {
    if v < 128 {
    } else {
      assert n > 1 by { assert Pow128(1) == 128; }
      LengthBound(v / 128, n - 1);
    }
  }

  lemma AtMostTenBytes(v: UInt64)
    ensures 1 <= |Encode(v)| <= 10
  {
    Pow128Values();
    LengthBound(v, 10);
  }

  /**
   The encoding, byte by byte: seven bits each, the lowest first, the top bit set on all but
   the last; and the last is not zero unless the number is.
   */
  lemma {:induction false} VarintDigits(v: nat, j: nat)
    requires j < |Encode(v)|
    ensures Encode(v)[j] == v / Pow128(j) % 128 + (if j < |Encode(v)| - 1 then 128 else 0)
    ensures v / Pow128(|Encode(v)|) == 0 && (v > 0 ==> v / Pow128(|Encode(v)| - 1) > 0)
  {
    if v < 128 {
    } else {
      var n := |Encode(v / 128)|;
      VarintDigits(v / 128, if j == 0 then 0 else j - 1);
      DivDiv(v, 128, Pow128(n));
      DivDiv(v, 128, Pow128(n - 1));
      if j > 0 {
        DivDiv(v, 128, Pow128(j - 1));
      }
    }
  }

  /** Ten bytes that all continue are a panic, so no varint takes more than ten. */
  lemma {:induction false} EleventhBytePanics(s: seq<Byte>)
    requires |s| >= 10 && forall i :: 0 <= i < 10 ==> s[i] >= 0x80
    ensures Decode(s) == Failed(Panic)
  {
    ContinuedPanics(s, 0);
  }

  lemma {:induction false} ContinuedPanics(s: seq<Byte>, k: nat)
    requires k <= 10 && |s| >= 10 - k && forall i :: 0 <= i < 10 - k ==> s[i] >= 0x80
    ensures DecodeFrom(s, k) == Failed(Panic)
    decreases 10 - k
  {
    if k == 10 {
    } else {
      ContinuedPanics(s[1..], k + 1);
    }
  }

  lemma {:induction false} LengthMonotone(v: nat, w: nat)
    requires v <= w
    ensures |Encode(v)| <= |Encode(w)|
  {
    if v < 128 {
    } else {
      LengthMonotone(v / 128, w / 128);
    }
  }

  lemma {:induction false} DecodeFromEncode(v: nat, k: nat, t: seq<Byte>)
    requires k + |Encode(v)| <= MAX_BYTES
    ensures DecodeFrom(Encode(v) + t, k) == Done(v, t)
  {
    var s := Encode(v) + t;
    if v < 128 {
      assert s == [v] + t;
      assert s[1..] == t;
    } else {
      assert s[1..] == Encode(v / 128) + t;
      DecodeFromEncode(v / 128, k + 1, t);
    }
  }

  /** The decoder inverts the encoder on every `u64`, whatever follows. */
  lemma RoundTrip(v: UInt64, t: seq<Byte>)
    ensures Decode(Encode(v) + t) == Done(v, t)
  {
    AtMostTenBytes(v);
    DecodeFromEncode(v, 0, t);
  }

  /** No encoding is a proper prefix of another: the varint code is prefix-free. */
  lemma PrefixFree(v: UInt64, w: UInt64)
    requires Encode(v) <= Encode(w)
    ensures v == w
  {
    var t := Encode(w)[|Encode(v)|..];
    assert Encode(v) + t == Encode(w) + [];
    RoundTrip(v, t);
    RoundTrip(w, []);
  }

  lemma {:induction false} DecodeFromIsNoShorter(s: seq<Byte>, k: nat)
    requires DecodeFrom(s, k).Done?
    ensures |Encode(DecodeFrom(s, k).value)| <= |s| - |DecodeFrom(s, k).rest|
    decreases |s|
  {
    if s[0] < 128 {
    } else {
      DecodeFromIsNoShorter(s[1..], k + 1);
      var v := DecodeFrom(s[1..], k + 1).value;
      assert |Encode(s[0] - 128 + 128 * v)| <= 1 + |Encode(v)|;
    }
  }

  /** Whatever bytes decode to `v`, the encoder's own bytes are no longer. */
  lemma Shortest(s: seq<Byte>)
    requires Decode(s).Done?
    ensures |Encode(Decode(s).value)| <= |s| - |Decode(s).rest|
  {
    DecodeFromIsNoShorter(s, 0);
    var w := DecodeFrom(s, 0).value;
    LengthMonotone(w % TWO_64, w);
  }

  lemma {:induction false} DecodeFromLocal(s: seq<Byte>, k: nat, t: seq<Byte>)
    requires DecodeFrom(s, k).Done?
    ensures var p := DecodeFrom(s, k); IsSuffix(p.rest, s) && DecodeFrom(Used(s, p.rest) + t, k) == Done(p.value, t)
    decreases |s|
  {
    var rest := DecodeFrom(s, k).rest;
    if s[0] >= 128 {
      DecodeFromLocal(s[1..], k + 1, t);
      UsedInSteps(s, s[1..], rest, t);
      var u := Used(s, rest) + t;
      assert Used(s, s[1..]) == [s[0]];
      assert u[1..] == Used(s[1..], rest) + t;
    } else {
      var u := Used(s, rest) + t;
      assert Used(s, rest) == [s[0]];
      assert u[1..] == t;
    }
  }

  /** The decoder looks at nothing beyond the varint it returns. */
  lemma DecodeLocal(s: seq<Byte>, t: seq<Byte>)
    requires Decode(s).Done?
    ensures var p := Decode(s); IsSuffix(p.rest, s) && Decode(Used(s, p.rest) + t) == Done(p.value, t)
  {
    DecodeFromLocal(s, 0, t);
  }

  // ----- signed and 32-bit forms -----

  function EncodeSigned(i: Int64): seq<Byte> {
    Encode(AsUnsigned(i))
  }

  function DecodeSigned(s: seq<Byte>): Parse<Int64> {
    match Decode(s)
    case Failed(why) => Failed(why)
    case Done(v, rest) => Done(AsSigned(v), rest)
  }

  lemma SignedRoundTrip(i: Int64, t: seq<Byte>)
    ensures DecodeSigned(EncodeSigned(i) + t) == Done(i, t)
  {
    RoundTrip(AsUnsigned(i), t);
  }

  /** A negative number is sign-extended to ten bytes. */
  lemma NegativeTakesTen(i: Int64)
    requires i < 0
    ensures |EncodeSigned(i)| == 10
  {
    var v := AsUnsigned(i);
    AtMostTenBytes(v);
    Pow128Values();
    AtLeastTenBytes(v);
  }

  lemma {:induction false} AtLeastTenBytes(v: UInt64)
    requires v >= Pow128(9)
    ensures |Encode(v)| >= 10
  {
    if |Encode(v)| < 10 {
      ShortIsSmall(v, 9);
    }
  }

  lemma {:induction false} ShortIsSmall(v: nat, n: nat)
    requires |Encode(v)| <= n
    ensures v < Pow128(n)
  {
    if v < 128 {
      assert Pow128(1) == 128;
      PowGrows(1, n);
    } else {
      ShortIsSmall(v / 128, n - 1);
    }
  }

  lemma {:induction false} PowGrows(m: nat, n: nat)
    requires m <= n
    ensures Pow128(m) <= Pow128(n)
    decreases n
  {
    if m == n {
    } else {
      PowGrows(m, n - 1);
    }
  }

  /** `VarInt32Coder::encode`: the low 32 bits, zero-extended. */
  function Encode32(i: Int64): seq<Byte> {
    Encode(i % TWO_32)
  }

  /** `VarInt32Coder::decode`. */
  function Decode32(s: seq<Byte>): Parse<Int64> {
    match Decode(s)
    case Failed(why) => Failed(why)
    case Done(raw, rest) =>
      if raw >= TWO_32 then Failed(Error)
      else Done(if raw < TWO_31 then raw else raw - TWO_32, rest)
  }

  /** The 32-bit coder inverts itself exactly on `i32`. */
  lemma RoundTrip32(i: Int64, t: seq<Byte>)
    ensures Decode32(Encode32(i) + t) == Done(i, t) <==> -TWO_31 <= i < TWO_31
  {
    RoundTrip(i % TWO_32, t);
  }

  /** On `i32` the two coders write the same bytes exactly when the value is not negative. */
  lemma SameBytesIffNonNegative(i: Int32)
    ensures Encode32(i) == EncodeSigned(i) <==> i >= 0
  {
    RoundTrip(i % TWO_32, []);
    RoundTrip(AsUnsigned(i), []);
  }

  /** The 32-bit decoder accepts exactly the varints below 2^32, and only yields `i32` values. */
  lemma Decode32Domain(s: seq<Byte>)
    ensures Decode32(s).Done? <==> Decode(s).Done? && Decode(s).value < TWO_32
    ensures Decode32(s).Done? ==> -TWO_31 <= Decode32(s).value < TWO_31
    ensures Decode32(s).Done? ==> Decode32(s).value % TWO_32 == Decode(s).value
  {
  }

  /** The 32-bit decoder accepts exactly the varints of the numbers its encoder writes for some `i32`. */
  lemma Decode32AcceptsTheImage(s: seq<Byte>)
    ensures Decode32(s).Done? <==> Decode(s).Done? && exists i: Int32 :: Encode32(i) == Encode(Decode(s).value)
    ensures Decode32(s).Done? ==>
              -TWO_31 <= Decode32(s).value < TWO_31 && Encode32(Decode32(s).value) == Encode(Decode(s).value)
  {
    Decode32Domain(s);
    if Decode32(s).Done? {
      var i: Int32 := Decode32(s).value;
      assert Encode32(i) == Encode(Decode(s).value);
    } else if Decode(s).Done? {
      forall i: Int32
        ensures Encode32(i) != Encode(Decode(s).value)
      {
        RoundTrip(Decode(s).value, []);
        RoundTrip(i % TWO_32, []);
      }
    }
  }

  // ----- length-delimited bytes -----

  /** `BytesCoder`, `PickleCoder`, `LengthPrefixCoder`: a varint length, then the bytes. */
  function EncodeDelimited(b: seq<Byte>): seq<Byte> {
    Encode(|b| % TWO_64) + b
  }

  /** `decode_length_delimited`. */
  function DecodeDelimited(s: seq<Byte>): (p: Parse<seq<Byte>>)
    ensures p.Done? ==> |p.rest| < |s| && |p.value| < TWO_64
  {
    match Decode(s)
    case Failed(why) => Failed(why)
    case Done(n, rest) => if n > |rest| then Failed(Error) else Take(n, rest)
  }

  lemma DelimitedRoundTrip(b: seq<Byte>, t: seq<Byte>)
    requires |b| < TWO_64
    ensures DecodeDelimited(EncodeDelimited(b) + t) == Done(b, t)
  {
    RoundTrip(|b|, b + t);
    assert EncodeDelimited(b) + t == Encode(|b|) + (b + t);
    assert (b + t)[..|b|] == b && (b + t)[|b|..] == t;
  }

  lemma DelimitedLocal(s: seq<Byte>, t: seq<Byte>)
    requires DecodeDelimited(s).Done?
    ensures var p := DecodeDelimited(s);
            IsSuffix(p.rest, s) && DecodeDelimited(Used(s, p.rest) + t) == Done(p.value, t)
  {
    var p, n, s1 := DecodeDelimited(s), Decode(s).value, Decode(s).rest;
    DecodeLocal(s, p.value + t);
    UsedInSteps(s, s1, p.rest, t);
    assert Used(s1, p.rest) == p.value;
    assert (p.value + t)[..n] == p.value && (p.value + t)[n..] == t;
  }

  // ----- the loops -----

  method PutVarint(v: UInt64, buf: WriteBuf)
    modifies buf
    ensures buf.bytes == old(buf.bytes) + Encode(v)
  {
    var value := v;
    while true
      invariant 0 <= value < TWO_64
      invariant buf.bytes + Encode(value) == old(buf.bytes) + Encode(v)
      decreases value
    {
      var byte := value % 128;
      ghost var before := buf.bytes;
      ghost var whole := value;
      value := value / 128;
      if value != 0 {
        byte := byte + 128;
      }
      buf.PutByte(byte);
      EncodeStep(before, whole);
      if value == 0 {
        break;
      }
    }
  }

  lemma {:induction false} EncodeStep(before: seq<Byte>, v: nat)
    ensures before + Encode(v) ==
            if v / 128 == 0 then before + [v % 128] else (before + [v % 128 + 128]) + Encode(v / 128)
  {
    if v >= 128 {
      assert before + ([v % 128 + 128] + Encode(v / 128)) == (before + [v % 128 + 128]) + Encode(v / 128);
    }
  }

  /** Seven bits moved to the place of the `k`-th byte. */
  function Placed(bits: nat, k: nat): nat {
    Pow128(k) * bits
  }

  /** The outcome of a decode that has already gathered `total` from its first `k` bytes. */
  ghost function Resume(total: nat, k: nat, p: Parse<nat>): Parse<nat> {
    match p
    case Failed(why) => Failed(why)
    case Done(v, rest) => Done(total + Placed(v, k), rest)
  }

  lemma ResumeStep(total: nat, k: nat, s: seq<Byte>)
    ensures var p := Resume(total, k, DecodeFrom(s, k));
            if s == [] || k >= MAX_BYTES then p == Failed(Panic)
            else if s[0] < 128 then p == Done(total + Placed(s[0], k), s[1..])
            else p == Resume(total + Placed(s[0] - 128, k), k + 1, DecodeFrom(s[1..], k + 1))
  {
    if s != [] && k < MAX_BYTES && s[0] >= 128 && DecodeFrom(s[1..], k + 1).Done? {
      var p, low, v := Pow128(k), s[0] - 128, DecodeFrom(s[1..], k + 1).value;
      assert p * (low + 128 * v) == p * low + 128 * p * v;
    }
  }

  lemma ModAdd(a: nat, b: nat)
    ensures (a % TWO_64 + b) % TWO_64 == (a + b) % TWO_64
  {
  }

  method GetVarint(buf: ReadBuf) returns (r: Result<UInt64>)
    modifies buf
    ensures Agrees(r, buf.rest, Decode(old(buf.rest)))
  {
    var result: nat, k: nat := 0, 0;
    ghost var start := buf.rest;
    ghost var total := 0;
    while k < MAX_BYTES
      invariant 0 <= k <= MAX_BYTES
      invariant 0 <= total && result == total % TWO_64
      invariant DecodeFrom(start, 0) == Resume(total, k, DecodeFrom(buf.rest, k))
      decreases MAX_BYTES - k
    {
      ResumeStep(total, k, buf.rest);
      var byte :- buf.GetByte();
      var low := Placed(byte % 128, k);
      ModAdd(total, low);
      result := (result + low) % TWO_64;
      if byte < 128 {
        return Ok(result);
      }
      total := total + low;
      k := k + 1;
    }
    ResumeStep(total, k, buf.rest);
    r := Err(Panic);
  }

  method PutSigned(i: Int64, buf: WriteBuf)
    modifies buf
    ensures buf.bytes == old(buf.bytes) + EncodeSigned(i)
  {
    PutVarint(AsUnsigned(i), buf);
  }

  method GetSigned(buf: ReadBuf) returns (r: Result<Int64>)
    modifies buf
    ensures Agrees(r, buf.rest, DecodeSigned(old(buf.rest)))
  {
    var v :- GetVarint(buf);
    r := Ok(AsSigned(v));
  }

  method PutDelimited(b: seq<Byte>, buf: WriteBuf)
    modifies buf
    ensures buf.bytes == old(buf.bytes) + EncodeDelimited(b)
  {
    PutVarint(|b| % TWO_64, buf);
    buf.PutSlice(b);
  }

  method GetDelimited(buf: ReadBuf) returns (r: Result<seq<Byte>>)
    modifies buf
    ensures Agrees(r, buf.rest, DecodeDelimited(old(buf.rest)))
  {
    var n :- GetVarint(buf);
    if n > |buf.rest| {
      return Err(Error);
    }
    r := buf.GetSlice(n);
  }
}
