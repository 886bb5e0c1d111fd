/** Pane information: one flag byte, then zero, one or two varint indices. */
module Panes {
  import opened Bytes
  import Varint

  datatype Timing = Early | OnTime | Late | Unknown

  datatype Pane = Pane(isFirst: bool, isLast: bool, timing: Timing, index: Int64, nonSpeculative: Int64)

  const NO_FIRING := Pane(true, true, Unknown, 0, 0)

  function TimingBits(t: Timing): (b: nat)
    ensures b < 4
  {
    match t case Early => 0 case OnTime => 1 case Late => 2 case Unknown => 3
  }

  function TimingFromBits(b: nat): Timing {
    if b == 0 then Early else if b == 1 then OnTime else if b == 2 then Late else Unknown
  }

  /** The non-speculative index a decoder assumes when none is sent. */
  function Derived(timing: Timing, index: Int64): Int64 {
    if timing == Early then -1 else index
  }

  /** How many indices are written: the high nibble of the flag byte. */
  function Encoding(p: Pane): (n: nat)
    ensures n <= 2
  {
    if p.nonSpeculative != Derived(p.timing, p.index) then 2 else if p.index != 0 then 1 else 0
  }

  function FlagByte(p: Pane): Byte {
    16 * Encoding(p) + 4 * TimingBits(p.timing) + (if p.isLast then 2 else 0) + (if p.isFirst then 1 else 0)
  }

  /** `encode_pane_info`. */
  function Encode(p: Pane): seq<Byte> {
    [FlagByte(p)] +
    (if Encoding(p) == 2 then Varint.EncodeSigned(p.index) + Varint.EncodeSigned(p.nonSpeculative)
     else if Encoding(p) == 1 then Varint.EncodeSigned(p.index)
     else [])
  }

  /** `decode_pane_info`. */
  function Decode(s: seq<Byte>): (r: Parse<Pane>)
    ensures r.Done? ==> |r.rest| < |s|
  {
    if s == [] then Failed(Panic)
    else
      var first, last, timing := s[0] % 2 != 0, s[0] / 2 % 2 != 0, TimingFromBits(s[0] / 4 % 4);
      if s[0] / 16 == 0 then Done(Pane(first, last, timing, 0, Derived(timing, 0)), s[1..])
      else
        match Varint.DecodeSigned(s[1..])
        case Failed(why) => Failed(why)
        case Done(index, s1) =>
          if s[0] / 16 == 1 then Done(Pane(first, last, timing, index, Derived(timing, index)), s1)
          else
            match Varint.DecodeSigned(s1)
            case Failed(why) => Failed(why)
            case Done(other, s2) => Done(Pane(first, last, timing, index, other), s2)
  }

  lemma FlagByteReads(p: Pane)
    ensures var b := FlagByte(p);
            && b / 16 == Encoding(p)
            && TimingFromBits(b / 4 % 4) == p.timing
            && (b % 2 != 0) == p.isFirst
            && (b / 2 % 2 != 0) == p.isLast
  {
  }

  /** A pane takes a single byte exactly when its index is zero and the other is the one its timing implies. */
  lemma OneByteIff(p: Pane)
    ensures |Encode(p)| == 1 <==> p.index == 0 && p.nonSpeculative == (if p.timing == Early then -1 else 0)
  {
  }

  /** It carries its index alone exactly when that is not zero and implies the other. */
  lemma OneIndexIff(p: Pane)
    ensures Encode(p)[0] / 16 == 1 <==>
            p.index != 0 && p.nonSpeculative == (if p.timing == Early then -1 else p.index)
    ensures Encode(p)[0] / 16 == 1 ==> Encode(p)[1..] == Varint.EncodeSigned(p.index)
    ensures Encode(p)[0] / 16 == 2 ==>
              Encode(p)[1..] == Varint.EncodeSigned(p.index) + Varint.EncodeSigned(p.nonSpeculative)
  {
    FlagByteReads(p);
  }

  /** The low four bits: first, last, and the timing in the order of the model's enumeration. */
  lemma FlagBits(p: Pane)
    ensures Encode(p)[0] % 16 ==
            (if p.isFirst then 1 else 0) + (if p.isLast then 2 else 0)
            + (match p.timing case Early => 0 case OnTime => 4 case Late => 8 case Unknown => 12)
  {
  }

  /** What a byte alone is read as. */
  lemma LoneByteReads(b: Byte)
    requires b < 16
    ensures Decode([b]) ==
            Done(Pane(b % 2 == 1, b % 4 >= 2,
                      if b < 4 then Early else if b < 8 then OnTime else if b < 12 then Late else Unknown,
                      0, if b < 4 then -1 else 0), [])
  {
  }

  /** Every pane comes back, whatever follows it. */
  lemma RoundTrip(p: Pane, t: seq<Byte>)
    ensures Decode(Encode(p) + t) == Done(p, t)
  {
    FlagByteReads(p);
    var s := Encode(p) + t;
    var a, b := Varint.EncodeSigned(p.index), Varint.EncodeSigned(p.nonSpeculative);
    if Encoding(p) == 2 {
      assert s[1..] == a + (b + t);
      Varint.SignedRoundTrip(p.index, b + t);
      Varint.SignedRoundTrip(p.nonSpeculative, t);
    } else if Encoding(p) == 1 {
      assert s[1..] == a + t;
      Varint.SignedRoundTrip(p.index, t);
    } else {
      assert s[1..] == t;
    }
  }

  lemma SignedShortest(s: seq<Byte>)
    requires Varint.DecodeSigned(s).Done?
    ensures |Varint.EncodeSigned(Varint.DecodeSigned(s).value)| <= |s| - |Varint.DecodeSigned(s).rest|
  {
    Varint.Shortest(s);
  }

  /** The encoder's bytes are the shortest that decode to the pane. */
  lemma Shortest(s: seq<Byte>)
    requires Decode(s).Done?
    ensures |Encode(Decode(s).value)| <= |s| - |Decode(s).rest|
  {
    if s[0] / 16 >= 1 {
      SignedShortest(s[1..]);
      if s[0] / 16 >= 2 {
        SignedShortest(Varint.DecodeSigned(s[1..]).rest);
      }
    }
  }

  /** The decoder looks at nothing beyond the pane. */
  lemma DecodeLocal(s: seq<Byte>, t: seq<Byte>)
    requires Decode(s).Done?
    ensures IsSuffix(Decode(s).rest, s) && Decode(Used(s, Decode(s).rest) + t) == Done(Decode(s).value, t)
  {
    var rest := Decode(s).rest;
    assert Used(s, s[1..]) == [s[0]];
    if s[0] / 16 == 0 {
      assert ([s[0]] + t)[1..] == t;
    } else {
      var s1 := Varint.DecodeSigned(s[1..]).rest;
      if s[0] / 16 == 1 {
        Varint.DecodeLocal(s[1..], t);
        UsedInSteps(s, s[1..], s1, t);
        assert ([s[0]] + (Used(s[1..], s1) + t))[1..] == Used(s[1..], s1) + t;
      } else {
        Varint.DecodeLocal(s1, t);
        var u := Used(s1, rest) + t;
        Varint.DecodeLocal(s[1..], u);
        UsedInSteps(s[1..], s1, rest, t);
        UsedInSteps(s, s[1..], rest, t);
        assert ([s[0]] + (Used(s[1..], s1) + u))[1..] == Used(s[1..], s1) + u;
      }
    }
  }

  method PutPane(p: Pane, buf: WriteBuf)
    modifies buf
    ensures buf.bytes == old(buf.bytes) + Encode(p)
  {
    var first := 0;
    match p.timing {
      case Early =>
      case OnTime => first := 4;
      case Late => first := 8;
      case Unknown => first := 12;
    }
    if p.isFirst {
      first := first + 1;
    }
    if p.isLast {
      first := first + 2;
    }
    var hasIndex := p.index != 0;
    var derived: Int64 := if p.timing == Early then -1 else p.index;
    var hasOther := p.nonSpeculative != derived;
    if hasOther {
      first := first + 0x20;
    } else if hasIndex {
      first := first + 0x10;
    }
    buf.PutByte(first);
    if hasOther {
      Varint.PutSigned(p.index, buf);
      Varint.PutSigned(p.nonSpeculative, buf);
    } else if hasIndex {
      Varint.PutSigned(p.index, buf);
    }
  }

  method GetPane(buf: ReadBuf) returns (r: Result<Pane>)
    modifies buf
    ensures Agrees(r, buf.rest, Decode(old(buf.rest)))
  {
    var b :- buf.GetByte();
    var encoding, timing := b / 16, TimingFromBits(b / 4 % 4);
    var index: Int64 := 0;
    if encoding >= 1 {
      index :- Varint.GetSigned(buf);
    }
    var other: Int64 := if timing == Early then -1 else index;
    if encoding >= 2 {
      other :- Varint.GetSigned(buf);
    }
    r := Ok(Pane(b % 2 != 0, b / 2 % 2 != 0, timing, index, other));
  }
}
