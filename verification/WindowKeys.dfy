/**
 Windows and their two identities: the binary key the element store sorts by, and
 the printable key. Rust strings are held as their UTF-8 bytes.
 */
module WindowKeys {
  import opened Bytes
  import opened Utf8

  datatype Window =
    | Global
    | Interval(start: Int64, end: Int64)
    | Opaque(coderId: seq<Byte>, bytes: seq<Byte>)

  /** The coder id of an opaque window is a Rust `String`. */
  predicate ValidWindow(w: Window) {
    w.Opaque? ==> ValidUtf8(w.coderId)
  }

  // ----- binary keys -----

  /** `to_binary_key`; `None` is the panic on an oversized coder id. */
  function ToBinaryKey(w: Window): Option<seq<Byte>> {
    match w
    case Global => Some([0])
    case Interval(start, end) => Some([1] + Ordered64(start) + Ordered64(end))
    case Opaque(id, bytes) => if |id| >= TWO_32 then None else Some([2] + BigEndian(4, |id|) + id + bytes)
  }

  /** `from_binary_key`. */
  function FromBinaryKey(key: seq<Byte>): Option<Window> {
    if key == [] then None
    else
      var rest := key[1..];
      if key[0] == 0 && rest == [] then Some(Global)
      else if key[0] == 1 && |rest| == 16 then
        var start, end := TakeOrdered64(rest[..8]), TakeOrdered64(rest[8..]);
        Some(Interval(start.value, end.value))
      else if key[0] == 2 && |rest| >= 4 then
        var end := 4 + FromBigEndian(rest[..4]);
        if end > |rest| || !ValidUtf8(rest[4..end]) then None
        else Some(Opaque(rest[4..end], rest[end..]))
      else None
  }

  /** The bytes of a key, and the only windows without one. */
  lemma BinaryKeyBytes(w: Window)
    ensures ToBinaryKey(w).None? <==> w.Opaque? && |w.coderId| >= 0x1_0000_0000
    ensures w.Global? ==> ToBinaryKey(w) == Some([0])
    ensures w.Interval? ==>
              && ToBinaryKey(w).Some? && |ToBinaryKey(w).value| == 17 && ToBinaryKey(w).value[0] == 1
              && FromBigEndian(ToBinaryKey(w).value[1..9]) == w.start + 0x8000_0000_0000_0000
              && FromBigEndian(ToBinaryKey(w).value[9..]) == w.end + 0x8000_0000_0000_0000
    ensures w.Opaque? && |w.coderId| < 0x1_0000_0000 ==>
              && ToBinaryKey(w).Some? && |ToBinaryKey(w).value| == 5 + |w.coderId| + |w.bytes|
              && ToBinaryKey(w).value[0] == 2 && FromBigEndian(ToBinaryKey(w).value[1..5]) == |w.coderId|
              && ToBinaryKey(w).value[5..] == w.coderId + w.bytes
  {
    Pow256Values();
    match w
    case Global =>
    case Interval(start, end) =>
      var key, a, b := ToBinaryKey(w).value, Ordered64(start), Ordered64(end);
      assert key[1..9] == a && key[9..] == b;
      BigEndianRoundTrip(8, FlipSign(start));
      BigEndianRoundTrip(8, FlipSign(end));
    case Opaque(id, _) =>
      if |id| < TWO_32 {
        var key := ToBinaryKey(w).value;
        assert key[1..5] == BigEndian(4, |id|);
        BigEndianRoundTrip(4, |id|);
      }
  }

  lemma BinaryKeyRoundTrip(w: Window)
    requires ValidWindow(w) && ToBinaryKey(w).Some?
    ensures FromBinaryKey(ToBinaryKey(w).value) == Some(w)
  {
    var key := ToBinaryKey(w).value;
    match w
    case Global =>
    case Interval(start, end) =>
      assert key[1..] == Ordered64(start) + Ordered64(end);
      assert key[1..][..8] == Ordered64(start) + [] && key[1..][8..] == Ordered64(end) + [];
      TakeOrdered64OfOrdered64(start, []);
      TakeOrdered64OfOrdered64(end, []);
    case Opaque(id, bytes) =>
      var n := BigEndian(4, |id|);
      assert key[1..] == n + id + bytes;
      assert key[1..][..4] == n;
      Pow256Values();
      BigEndianRoundTrip(4, |id|);
      assert key[1..][4..4 + |id|] == id && key[1..][4 + |id|..] == bytes;
  }

  lemma AcceptedIntervalIsPrinted(key: seq<Byte>)
    requires FromBinaryKey(key).Some? && FromBinaryKey(key).value.Interval?
    ensures ToBinaryKey(FromBinaryKey(key).value) == Some(key)
  {
    var rest := key[1..];
    Ordered64OfTakeOrdered64(rest[..8]);
    Ordered64OfTakeOrdered64(rest[8..]);
    assert key == [1] + rest[..8] + rest[8..];
  }

  lemma AcceptedOpaqueIsPrinted(key: seq<Byte>)
    requires FromBinaryKey(key).Some? && FromBinaryKey(key).value.Opaque?
    ensures ValidWindow(FromBinaryKey(key).value) && ToBinaryKey(FromBinaryKey(key).value) == Some(key)
  {
    var rest, w := key[1..], FromBinaryKey(key).value;
    FromBigEndianRoundTrip(rest[..4]);
    Pow256Values();
    var end := 4 + |w.coderId|;
    assert key == [2] + rest[..4] + rest[4..end] + rest[end..];
  }

  lemma AcceptedKeyIsPrinted(key: seq<Byte>)
    requires FromBinaryKey(key).Some?
    ensures var w := FromBinaryKey(key).value; ValidWindow(w) && ToBinaryKey(w) == Some(key)
  {
    match FromBinaryKey(key).value
    case Global => assert key == [0];
    case Interval(_, _) => AcceptedIntervalIsPrinted(key);
    case Opaque(_, _) => AcceptedOpaqueIsPrinted(key);
  }

  /** The parser accepts exactly the image of the printer and inverts it. */
  lemma BinaryKeyBijection(w: Window, key: seq<Byte>)
    ensures FromBinaryKey(key) == Some(w) <==> ValidWindow(w) && ToBinaryKey(w) == Some(key)
  {
    if FromBinaryKey(key) == Some(w) {
      AcceptedKeyIsPrinted(key);
    } else if ValidWindow(w) && ToBinaryKey(w) == Some(key) {
      BinaryKeyRoundTrip(w);
    }
  }

  function Rank(w: Window): nat {
    match w case Global => 0 case Interval(_, _) => 1 case Opaque(_, _) => 2
  }

  /**
   The order the store sees: kinds first, then intervals by start and end, and opaque windows
   by the length of their coder id, the id and their bytes.
   */
  predicate Before(v: Window, w: Window) {
    || Rank(v) < Rank(w)
    || (v.Interval? && w.Interval? && (v.start < w.start || (v.start == w.start && v.end < w.end)))
    || (v.Opaque? && w.Opaque? &&
        (|| |v.coderId| < |w.coderId|
         || (|v.coderId| == |w.coderId| && LexLess(v.coderId, w.coderId))
         || (v.coderId == w.coderId && LexLess(v.bytes, w.bytes))))
  }

  lemma TagOrder(tag: Byte, x: seq<Byte>, y: seq<Byte>)
    ensures LexLess([tag] + x, [tag] + y) <==> LexLess(x, y)
  {
    LexLessAppend([tag], [tag], x, y);
    assert !LexLess([], []) && !LexLess([tag], [tag]);
  }

  lemma CountOrder(m: nat, n: nat)
    requires m < TWO_32 && n < TWO_32
    ensures LexLess(BigEndian(4, m), BigEndian(4, n)) <==> m < n
    ensures BigEndian(4, m) == BigEndian(4, n) <==> m == n
  {
    Pow256Values();
    BigEndianOrder(4, m, n);
    BigEndianRoundTrip(4, m);
    BigEndianRoundTrip(4, n);
  }

  lemma OpaqueKeyOrder(v: Window, w: Window)
    requires v.Opaque? && w.Opaque? && ToBinaryKey(v).Some? && ToBinaryKey(w).Some?
    ensures LexLess(ToBinaryKey(v).value, ToBinaryKey(w).value) <==> Before(v, w)
  {
    var a, b := BigEndian(4, |v.coderId|), BigEndian(4, |w.coderId|);
    var x, y := v.coderId + v.bytes, w.coderId + w.bytes;
    assert ToBinaryKey(v).value == [2] + (a + x) && ToBinaryKey(w).value == [2] + (b + y);
    TagOrder(2, a + x, b + y);
    LexLessAppend(a, b, x, y);
    CountOrder(|v.coderId|, |w.coderId|);
    if |v.coderId| == |w.coderId| {
      LexLessAppend(v.coderId, w.coderId, v.bytes, w.bytes);
    }
  }

  /** Sorting keys as bytes sorts windows. */
  lemma BinaryKeyOrder(v: Window, w: Window)
    requires ToBinaryKey(v).Some? && ToBinaryKey(w).Some?
    ensures LexLess(ToBinaryKey(v).value, ToBinaryKey(w).value) <==> Before(v, w)
  {
    var a, b := ToBinaryKey(v).value, ToBinaryKey(w).value;
    if v.Interval? && w.Interval? {
      var a1, a2, b1, b2 := Ordered64(v.start), Ordered64(v.end), Ordered64(w.start), Ordered64(w.end);
      assert a == [1] + (a1 + a2) && b == [1] + (b1 + b2);
      TagOrder(1, a1 + a2, b1 + b2);
      LexLessAppend(a1, b1, a2, b2);
      Ordered64IsMonotone(v.start, w.start);
      Ordered64IsMonotone(v.end, w.end);
      if a1 == b1 {
        TakeOrdered64OfOrdered64(v.start, []);
        TakeOrdered64OfOrdered64(w.start, []);
      }
    } else if v.Opaque? && w.Opaque? {
      OpaqueKeyOrder(v, w);
    } else {
      assert a[0] == Rank(v) && b[0] == Rank(w);
      if Rank(v) == Rank(w) {
        assert a == b == [0];
      }
    }
  }

  // ----- printable keys -----

  const COLON: Byte := 0x3A
  const PLUS: Byte := 0x2B
  const MINUS: Byte := 0x2D
  const ZERO: Byte := 0x30

  /** "global" */
  const GLOBAL: seq<Byte> := [0x67, 0x6C, 0x6F, 0x62, 0x61, 0x6C]
  /** "interval:" */
  const INTERVAL: seq<Byte> := [0x69, 0x6E, 0x74, 0x65, 0x72, 0x76, 0x61, 0x6C, 0x3A]
  /** "opaque:" */
  const OPAQUE: seq<Byte> := [0x6F, 0x70, 0x61, 0x71, 0x75, 0x65, 0x3A]

  function Digits(n: nat): (s: seq<Byte>)
    ensures s != []
  {
    if n < 10 then [ZERO + n] else Digits(n / 10) + [ZERO + n % 10]
  }

  /** An `i64` as `{}` prints it. */
  function Decimal(i: int): seq<Byte> {
    if i < 0 then [MINUS] + Digits(-i) else Digits(i)
  }

  function DigitsValue(s: seq<Byte>): Option<nat> {
    if s == [] then Some(0)
    else
      var last := s[|s| - 1];
      match DigitsValue(s[..|s| - 1])
      case None => None
      case Some(v) => if ZERO <= last < ZERO + 10 then Some(10 * v + (last - ZERO)) else None
  }

  /** `str::parse::<i64>`: an optional sign, at least one digit, and a value in range. */
  function ParseInt64(s: seq<Byte>): Option<Int64> {
    var negative := s != [] && s[0] == MINUS;
    var digits := if s != [] && (s[0] == MINUS || s[0] == PLUS) then s[1..] else s;
    if digits == [] then None
    else
      match DigitsValue(digits)
      case None => None
      case Some(v) =>
        var magnitude: int := v;
        var i := if negative then -magnitude else magnitude;
        if -TWO_63 <= i < TWO_63 then Some(i) else None
  }

  lemma {:induction false} DigitsValueOfDigits(n: nat)
    ensures DigitsValue(Digits(n)) == Some(n)
    ensures forall i :: 0 <= i < |Digits(n)| ==> ZERO <= Digits(n)[i] < ZERO + 10
  {
    if n < 10 {
      assert Digits(n)[..0] == [];
    } else {
      DigitsValueOfDigits(n / 10);
      assert Digits(n)[..|Digits(n)| - 1] == Digits(n / 10);
    }
  }

  lemma ParseDecimal(i: Int64)
    ensures ParseInt64(Decimal(i)) == Some(i)
    ensures COLON !in Decimal(i)
  {
    var n: int := if i < 0 then -1 * i else i;
    if i < 0 {
      DigitsValueOfDigits(n);
      assert Decimal(i)[1..] == Digits(n);
    } else {
      DigitsValueOfDigits(i);
      assert Digits(i)[0] >= ZERO;
    }
  }

  function HexDigit(n: nat): Byte
    requires n < 16
  {
    if n < 10 then 0x30 + n else 0x61 + (n - 10)
  }

  /** `char::to_digit(16)`: either case is accepted. */
  function HexValue(b: Byte): (v: Option<nat>)
    ensures v.Some? ==> v.value < 16
  {
    if 0x30 <= b <= 0x39 then Some(b - 0x30)
    else if 0x61 <= b <= 0x66 then Some(b - 0x61 + 10)
    else if 0x41 <= b <= 0x46 then Some(b - 0x41 + 10)
    else None
  }

  function Hex(bytes: seq<Byte>): seq<Byte> {
    if bytes == [] then [] else [HexDigit(bytes[0] / 16), HexDigit(bytes[0] % 16)] + Hex(bytes[1..])
  }

  function Unhex(s: seq<Byte>): Option<seq<Byte>> {
    if s == [] then Some([])
    else if |s| == 1 then None
    else
      var high, low, tail := HexValue(s[0]), HexValue(s[1]), Unhex(s[2..]);
      if high.Some? && low.Some? && tail.Some? then Some([16 * high.value + low.value] + tail.value) else None
  }

  lemma {:induction false} UnhexOfHex(bytes: seq<Byte>)
    ensures Unhex(Hex(bytes)) == Some(bytes) && COLON !in Hex(bytes)
  {
    if bytes == [] {
    } else {
      UnhexOfHex(bytes[1..]);
      assert Hex(bytes)[2..] == Hex(bytes[1..]);
      assert [bytes[0]] + bytes[1..] == bytes;
    }
  }

  /** The index of the first colon, or the length when there is none. */
  function FirstColon(s: seq<Byte>): (i: nat)
    ensures i <= |s|
  {
    if s == [] || s[0] == COLON then 0 else 1 + FirstColon(s[1..])
  }

  /** One past the index of the last colon, or 0 when there is none. */
  function AfterLastColon(s: seq<Byte>): (i: nat)
    ensures i <= |s|
  {
    if s == [] then 0 else if s[|s| - 1] == COLON then |s| else AfterLastColon(s[..|s| - 1])
  }

  lemma {:induction false} FirstColonAt(a: seq<Byte>, b: seq<Byte>)
    requires COLON !in a
    ensures FirstColon(a + [COLON] + b) == |a|
  {
    if a == [] {
    } else {
      assert (a + [COLON] + b)[1..] == a[1..] + [COLON] + b;
      FirstColonAt(a[1..], b);
    }
  }

  lemma {:induction false} AfterLastColonAt(a: seq<Byte>, b: seq<Byte>)
    requires COLON !in b
    ensures AfterLastColon(a + [COLON] + b) == |a| + 1
  {
    if b == [] {
    } else {
      var s := a + [COLON] + b;
      assert s[..|s| - 1] == a + [COLON] + b[..|b| - 1];
      AfterLastColonAt(a, b[..|b| - 1]);
    }
  }

  /** The bytes of ASCII text. */
  function Ascii(text: string): seq<Byte>
    requires forall i :: 0 <= i < |text| ==> text[i] < 128 as char
  {
    seq(|text|, i requires 0 <= i < |text| => text[i] as int)
  }

  /** A byte is read as a half-byte exactly when it is that digit in either case. */
  lemma HexValueReads(b: Byte, n: nat)
    requires n < 16
    ensures HexValue(b) == Some(n) <==> b == "0123456789abcdef"[n] as int || b == "0123456789ABCDEF"[n] as int
  {
  }

  /** Every byte is printed as two digits, the high half first. */
  lemma {:induction false} HexText(bytes: seq<Byte>, i: nat)
    requires i < |bytes|
    ensures |Hex(bytes)| == 2 * |bytes|
    ensures Hex(bytes)[2 * i] == "0123456789abcdef"[bytes[i] / 16] as int
    ensures Hex(bytes)[2 * i + 1] == "0123456789abcdef"[bytes[i] % 16] as int
  {
    if i == 0 {
      if |bytes| > 1 {
        HexText(bytes[1..], 0);
      }
    } else {
      HexText(bytes[1..], i - 1);
    }
  }

  /** Decimal digits, without a leading zero except for zero itself, that count the number. */
  lemma {:induction false} DigitsText(n: nat)
    ensures n > 0 ==> Digits(n)[0] != '0' as int
    ensures n == 0 ==> Digits(n) == Ascii("0")
    ensures forall i :: 0 <= i < |Digits(n)| ==> '0' as int <= Digits(n)[i] <= '9' as int
    ensures DigitsValue(Digits(n)) == Some(n)
  {
    DigitsValueOfDigits(n);
    if n < 10 {
    } else {
      DigitsText(n / 10);
    }
  }

  /** The text of a key. */
  lemma CanonicalKeyText(w: Window)
    ensures w.Global? ==> CanonicalKey(w) == Ascii("global")
    ensures w.Interval? ==>
              CanonicalKey(w) == Ascii("interval:") + SignedText(w.start) + Ascii(":") + SignedText(w.end)
    ensures w.Opaque? ==> CanonicalKey(w) == Ascii("opaque:") + w.coderId + Ascii(":") + Hex(w.bytes)
  {
    PrefixText();
    match w
    case Global =>
    case Interval(start, end) =>
      DecimalText(start);
      DecimalText(end);
      Regrouped(INTERVAL, Decimal(start), [COLON], Decimal(end));
    case Opaque(id, bytes) =>
      Regrouped(OPAQUE, id, [COLON], Hex(bytes));
  }

  lemma PrefixText()
    ensures GLOBAL == Ascii("global") && INTERVAL == Ascii("interval:") && OPAQUE == Ascii("opaque:")
    ensures [COLON] == Ascii(":") && [MINUS] == Ascii("-")
  {
  }

  lemma DecimalText(i: int)
    ensures Decimal(i) == SignedText(i)
  {
    PrefixText();
    if i >= 0 {
      assert [] + Digits(i) == Digits(i);
    }
  }

  lemma Regrouped(a: seq<Byte>, b: seq<Byte>, c: seq<Byte>, d: seq<Byte>)
    ensures a + (b + c + d) == a + b + c + d
  {
  }

  function SignedText(i: int): seq<Byte> {
    (if i < 0 then Ascii("-") else []) + Digits(if i < 0 then -i else i)
  }

  // ----- what the parser accepts -----

  predicate IsDigit(b: Byte) {
    '0' as int <= b <= '9' as int
  }

  predicate AllDigits(s: seq<Byte>) {
    s != [] && forall i :: 0 <= i < |s| ==> IsDigit(s[i])
  }

  /** The number that decimal digits count. */
  function Counted(s: seq<Byte>): int {
    if s == [] then 0
    else
      var last: int := s[|s| - 1];
      10 * Counted(s[..|s| - 1]) + (last - '0' as int)
  }

  lemma {:induction false} DigitsValueIff(s: seq<Byte>)
    ensures DigitsValue(s).Some? <==> s == [] || AllDigits(s)
    ensures DigitsValue(s).Some? ==> DigitsValue(s).value == Counted(s)
  {
    if s == [] {
    } else {
      var init := s[..|s| - 1];
      DigitsValueIff(init);
      assert forall i :: 0 <= i < |init| ==> init[i] == s[i];
    }
  }

  /** Digits after at most one sign, that count a number in range. */
  predicate IsNumeral(s: seq<Byte>, i: int) {
    && -0x8000_0000_0000_0000 <= i < 0x8000_0000_0000_0000
    && s != []
    && if s[0] == '-' as int then AllDigits(s[1..]) && i == -Counted(s[1..])
       else if s[0] == '+' as int then AllDigits(s[1..]) && i == Counted(s[1..])
       else AllDigits(s) && i == Counted(s)
  }

  /** The parser takes exactly the numerals. */
  lemma ParsesIffNumeral(s: seq<Byte>, i: Int64)
    ensures ParseInt64(s) == Some(i) <==> IsNumeral(s, i)
  {
    DigitsValueIff(s);
    if s != [] {
      DigitsValueIff(s[1..]);
    }
  }

  /** Pairs of hex digits in either case, one for each byte. */
  predicate ArePairs(s: seq<Byte>, bytes: seq<Byte>) {
    if bytes == [] then s == []
    else
      && |s| >= 2 && HexValue(s[0]) == Some(bytes[0] / 16) && HexValue(s[1]) == Some(bytes[0] % 16)
      && ArePairs(s[2..], bytes[1..])
  }

  lemma {:induction false} UnhexIff(s: seq<Byte>, bytes: seq<Byte>)
    ensures Unhex(s) == Some(bytes) <==> ArePairs(s, bytes)
    decreases |s|
  {
    if |s| < 2 || bytes == [] {
    } else {
      UnhexIff(s[2..], bytes[1..]);
      assert bytes == [bytes[0]] + bytes[1..];
      PairValue(HexValue(s[0]), HexValue(s[1]), bytes[0]);
      if Unhex(s).Some? {
        assert Unhex(s).value[1..] == Unhex(s[2..]).value;
      }
    }
  }

  lemma PairValue(high: Option<nat>, low: Option<nat>, b: Byte)
    requires high.Some? ==> high.value < 16
    requires low.Some? ==> low.value < 16
    ensures high.Some? && low.Some? ==>
              (16 * high.value + low.value == b <==> high.value == b / 16 && low.value == b % 16)
  {
  }

  lemma {:induction false} FirstColonSplits(s: seq<Byte>)
    requires FirstColon(s) < |s|
    ensures var at := FirstColon(s); COLON !in s[..at] && s == s[..at] + [COLON] + s[at + 1..]
  {
    if s[0] == COLON {
    } else {
      FirstColonSplits(s[1..]);
      var at := FirstColon(s);
      assert s[..at] == [s[0]] + s[1..][..at - 1];
    }
  }

  lemma {:induction false} AfterLastColonSplits(s: seq<Byte>)
    requires AfterLastColon(s) > 0
    ensures var after := AfterLastColon(s); COLON !in s[after..] && s == s[..after - 1] + [COLON] + s[after..]
  {
    if s[|s| - 1] == COLON {
    } else {
      AfterLastColonSplits(s[..|s| - 1]);
      var after := AfterLastColon(s);
      assert s[after..] == s[..|s| - 1][after..] + [s[|s| - 1]];
    }
  }

  /** An interval key: its prefix and two numerals parted by the first colon after it. */
  predicate IsIntervalKey(key: seq<Byte>, a: seq<Byte>, b: seq<Byte>, start: int, end: int) {
    key == Ascii("interval:") + (a + Ascii(":") + b) && ':' as int !in a && IsNumeral(a, start) && IsNumeral(b, end)
  }

  lemma AcceptedIntervalKey(key: seq<Byte>, start: Int64, end: Int64)
    ensures FromCanonicalKey(key) == Some(Interval(start, end)) <==> exists a, b :: IsIntervalKey(key, a, b, start, end)
  {
    PrefixText();
    if FromCanonicalKey(key) == Some(Interval(start, end)) {
      var a, b := IntervalSplits(key, start, end);
    }
    if a, b :| IsIntervalKey(key, a, b, start, end) {
      IntervalParses(key, a, b, start, end);
    }
  }

  lemma IntervalSplits(key: seq<Byte>, start: Int64, end: Int64) returns (a: seq<Byte>, b: seq<Byte>)
    requires FromCanonicalKey(key) == Some(Interval(start, end))
    ensures IsIntervalKey(key, a, b, start, end)
  {
    PrefixText();
    var rest := key[|INTERVAL|..];
    var at := FirstColon(rest);
    FirstColonSplits(rest);
    a, b := rest[..at], rest[at + 1..];
    ParsesIffNumeral(a, start);
    ParsesIffNumeral(b, end);
    assert key == INTERVAL + rest;
  }

  lemma IntervalParses(key: seq<Byte>, a: seq<Byte>, b: seq<Byte>, start: Int64, end: Int64)
    requires key == INTERVAL + (a + [COLON] + b) && COLON !in a && IsNumeral(a, start) && IsNumeral(b, end)
    ensures FromCanonicalKey(key) == Some(Interval(start, end))
  {
    var rest := a + [COLON] + b;
    StripsPrefix(INTERVAL, rest);
    FirstColonAt(a, b);
    assert rest[..|a|] == a && rest[|a| + 1..] == b;
    ParsesIffNumeral(a, start);
    ParsesIffNumeral(b, end);
    assert key[0] == 0x69;
  }

  /** An opaque key: its prefix, the coder id, the last colon and pairs of hex digits. */
  predicate IsOpaqueKey(key: seq<Byte>, id: seq<Byte>, h: seq<Byte>, bytes: seq<Byte>) {
    key == Ascii("opaque:") + (id + Ascii(":") + h) && ':' as int !in h && ArePairs(h, bytes)
  }

  lemma AcceptedOpaqueKey(key: seq<Byte>, id: seq<Byte>, bytes: seq<Byte>)
    ensures FromCanonicalKey(key) == Some(Opaque(id, bytes)) <==> exists h :: IsOpaqueKey(key, id, h, bytes)
  {
    PrefixText();
    if FromCanonicalKey(key) == Some(Opaque(id, bytes)) {
      var h := OpaqueSplits(key, id, bytes);
    }
    if h :| IsOpaqueKey(key, id, h, bytes) {
      OpaqueParses(key, id, h, bytes);
    }
  }

  lemma OpaqueSplits(key: seq<Byte>, id: seq<Byte>, bytes: seq<Byte>) returns (h: seq<Byte>)
    requires FromCanonicalKey(key) == Some(Opaque(id, bytes))
    ensures IsOpaqueKey(key, id, h, bytes)
  {
    PrefixText();
    var rest := key[|OPAQUE|..];
    AfterLastColonSplits(rest);
    h := rest[AfterLastColon(rest)..];
    UnhexIff(h, bytes);
    assert key == OPAQUE + rest;
  }

  lemma OpaqueParses(key: seq<Byte>, id: seq<Byte>, h: seq<Byte>, bytes: seq<Byte>)
    requires key == OPAQUE + (id + [COLON] + h) && COLON !in h && ArePairs(h, bytes)
    ensures FromCanonicalKey(key) == Some(Opaque(id, bytes))
  {
    var rest := id + [COLON] + h;
    StripsPrefix(OPAQUE, rest);
    AfterLastColonAt(id, h);
    assert rest[..|id|] == id && rest[|id| + 1..] == h;
    UnhexIff(h, bytes);
    assert |key| > 6;
  }

  /** And the global key is the word alone. */
  lemma AcceptedGlobalKey(key: seq<Byte>)
    ensures FromCanonicalKey(key) == Some(Global) <==> key == Ascii("global")
  {
    PrefixText();
  }

  /** `canonical_key`. */
  function CanonicalKey(w: Window): seq<Byte> {
    match w
    case Global => GLOBAL
    case Interval(start, end) => INTERVAL + (Decimal(start) + [COLON] + Decimal(end))
    case Opaque(id, bytes) => OPAQUE + (id + [COLON] + Hex(bytes))
  }

  /** `from_canonical_key`. */
  function FromCanonicalKey(key: seq<Byte>): Option<Window> {
    if key == GLOBAL then Some(Global)
    else if OPAQUE <= key then
      var rest := key[|OPAQUE|..];
      var after := AfterLastColon(rest);
      if after == 0 then None
      else match Unhex(rest[after..]) case None => None case Some(b) => Some(Opaque(rest[..after - 1], b))
    else if INTERVAL <= key then
      var rest := key[|INTERVAL|..];
      var at := FirstColon(rest);
      if at == |rest| then None
      else
        var start, end := ParseInt64(rest[..at]), ParseInt64(rest[at + 1..]);
        if start.Some? && end.Some? then Some(Interval(start.value, end.value)) else None
    else None
  }

  lemma StripsPrefix(p: seq<Byte>, rest: seq<Byte>)
    requires p != []
    ensures p <= p + rest && (p + rest)[|p|..] == rest && (p + rest)[0] == p[0]
  {
  }

  lemma IntervalKeyRoundTrip(start: Int64, end: Int64)
    ensures FromCanonicalKey(CanonicalKey(Interval(start, end))) == Some(Interval(start, end))
  {
    var a, b := Decimal(start), Decimal(end);
    var rest := a + [COLON] + b;
    ParseDecimal(start);
    ParseDecimal(end);
    FirstColonAt(a, b);
    StripsPrefix(INTERVAL, rest);
    assert rest[..|a|] == a && rest[|a| + 1..] == b;
  }

  lemma OpaqueKeyRoundTrip(id: seq<Byte>, bytes: seq<Byte>)
    ensures FromCanonicalKey(CanonicalKey(Opaque(id, bytes))) == Some(Opaque(id, bytes))
  {
    var rest := id + [COLON] + Hex(bytes);
    UnhexOfHex(bytes);
    AfterLastColonAt(id, Hex(bytes));
    StripsPrefix(OPAQUE, rest);
    assert rest[|id| + 1..] == Hex(bytes) && rest[..|id|] == id;
  }

  /** Every window parses back, with negative bounds, empty bytes or colons in its coder id. */
  lemma CanonicalKeyRoundTrip(w: Window)
    ensures FromCanonicalKey(CanonicalKey(w)) == Some(w)
  {
    if w.Interval? {
      IntervalKeyRoundTrip(w.start, w.end);
    } else if w.Opaque? {
      OpaqueKeyRoundTrip(w.coderId, w.bytes);
    }
  }

  /** The two keys identify the same windows. */
  lemma KeysIdentifyAlike(v: Window, w: Window)
    requires ValidWindow(v) && ValidWindow(w) && ToBinaryKey(v).Some? && ToBinaryKey(w).Some?
    ensures CanonicalKey(v) == CanonicalKey(w) <==> ToBinaryKey(v) == ToBinaryKey(w)
    ensures ToBinaryKey(v) == ToBinaryKey(w) <==> v == w
  {
    CanonicalKeyRoundTrip(v);
    CanonicalKeyRoundTrip(w);
    BinaryKeyRoundTrip(v);
    BinaryKeyRoundTrip(w);
  }

  // ----- the loops -----

  /** `hex_encode`. */
  method HexEncode(bytes: seq<Byte>) returns (s: seq<Byte>)
    ensures s == Hex(bytes)
  {
    s := [];
    var i := 0;
    while i < |bytes|
      invariant 0 <= i <= |bytes|
      invariant Hex(bytes) == s + Hex(bytes[i..])
    {
      HexStep(s, bytes, i);
      s := s + [HexDigit(bytes[i] / 16)];
      s := s + [HexDigit(bytes[i] % 16)];
      i := i + 1;
    }
  }

  lemma {:induction false} HexStep(s: seq<Byte>, bytes: seq<Byte>, i: nat)
    requires i < |bytes|
    ensures s + Hex(bytes[i..]) ==
            s + [HexDigit(bytes[i] / 16)] + [HexDigit(bytes[i] % 16)] + Hex(bytes[i + 1..])
  {
    assert bytes[i..][1..] == bytes[i + 1..] && bytes[i..][0] == bytes[i];
  }

  /** `hex_decode`. */
  method HexDecode(s: seq<Byte>) returns (r: Option<seq<Byte>>)
    ensures r == Unhex(s)
  {
    if |s| % 2 != 0 {
      OddUnhex(s);
      return None;
    }
    var decoded: seq<Byte> := [];
    assert s[0..] == s;
    JoinedNothing(Unhex(s));
    var i := 0;
    while i < |s|
      invariant 0 <= i <= |s| && i % 2 == 0
      invariant Unhex(s) == Joined(decoded, Unhex(s[i..]))
    {
      var high, low := HexValue(s[i]), HexValue(s[i + 1]);
      assert s[i..][2..] == s[i + 2..];
      if high.None? || low.None? {
        return None;
      }
      JoinedAssociative(decoded, [16 * high.value + low.value], Unhex(s[i + 2..]));
      decoded := decoded + [16 * high.value + low.value];
      i := i + 2;
    }
    assert decoded + [] == decoded;
    r := Some(decoded);
  }

  lemma {:induction false} OddUnhex(s: seq<Byte>)
    requires |s| % 2 != 0
    ensures Unhex(s) == None
  {
    if |s| <= 1 {
    } else {
      OddUnhex(s[2..]);
    }
  }
}
