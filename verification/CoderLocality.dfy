/**
 Self-delimitation for arbitrary bytes: a decoder consumes a prefix of its input
 and, without opaque Java leaves, depends on nothing after that prefix.
 */
module CoderLocality {
  import opened Bytes
  import opened Coders
  import opened CoderLaws
  import Varint

  // ----- decoders only consume -----

  lemma LeafSuffix(c: Coder, s: seq<Byte>)
    requires IsLeaf(c) && DecodeLeaf(c, s).Done?
    ensures IsSuffix(DecodeLeaf(c, s).rest, s)
  {
    if c == VarInt || c == VarInt32 {
      Varint.DecodeLocal(s, []);
    } else if Varint.DecodeDelimited(s).Done? {
      Varint.DelimitedLocal(s, []);
    }
  }

  lemma {:induction false} DecodeSuffix(c: Coder, s: seq<Byte>)
    requires Decode(c, s).Done?
    ensures IsSuffix(Decode(c, s).rest, s)
    decreases c, 1, 0
  {
    if c.Iterable? {
      IterableSuffix(c.element, s);
    } else if c.Nullable? {
      NullableSuffix(c, c.inner, s);
    } else if c.Tuple? {
      TupleSuffix(c.components, s);
    } else if c.Kv? {
      KvSuffix(c, c.keyCoder, c.valueCoder, s);
    } else if c.Gbk? {
      GbkSuffix(c, c.keyCoder, c.element, s);
    } else {
      LeafSuffix(c, s);
    }
  }

  lemma {:induction false} NullableSuffix(c: Coder, inner: Coder, s: seq<Byte>)
    requires c == Nullable(inner) && Decode(c, s).Done?
    ensures IsSuffix(Decode(c, s).rest, s)
    decreases c, 0, 0
  {
    var s1 := TakeByte(s).rest;
    assert IsSuffix(s1, s);
    if s[0] == 1 {
      DecodeSuffix(inner, s1);
      SuffixTransitive(Decode(inner, s1).rest, s1, s);
    }
  }

  lemma {:induction false} KvSuffix(c: Coder, k: Coder, v: Coder, s: seq<Byte>)
    requires c == Kv(k, v) && Decode(c, s).Done?
    ensures IsSuffix(Decode(c, s).rest, s)
    decreases c, 0, 0
  {
    KvDecodeSplits(k, v, s);
    KeySuffix(k, s);
    DecodeSuffix(v, DecodeKey(k, s).rest);
    SuffixTransitive(Decode(c, s).rest, DecodeKey(k, s).rest, s);
  }

  lemma {:induction false} GbkSuffix(c: Coder, k: Coder, e: Coder, s: seq<Byte>)
    requires c == Gbk(k, e) && Decode(c, s).Done?
    ensures IsSuffix(Decode(c, s).rest, s)
    decreases c, 0, 0
  {
    GbkDecodeSplits(k, e, s);
    KeySuffix(k, s);
    IterableSuffix(e, DecodeKey(k, s).rest);
    SuffixTransitive(Decode(c, s).rest, DecodeKey(k, s).rest, s);
  }

  lemma {:induction false} KeySuffix(k: Coder, s: seq<Byte>)
    requires DecodeKey(k, s).Done?
    ensures IsSuffix(DecodeKey(k, s).rest, s)
    decreases k, 2, 0
  {
    DecodeSuffix(k, s);
  }

  lemma {:induction false} TupleSuffix(cs: seq<Coder>, s: seq<Byte>)
    requires DecodeTuple(cs, s).Done?
    ensures IsSuffix(DecodeTuple(cs, s).rest, s)
    decreases cs, 0, 0
  {
    if cs == [] {
    } else {
      var s1 := Decode(cs[0], s).rest;
      DecodeSuffix(cs[0], s);
      TupleSuffix(cs[1..], s1);
      SuffixTransitive(DecodeTuple(cs, s).rest, s1, s);
    }
  }

  lemma {:induction false} ManySuffix(e: Coder, n: nat, s: seq<Byte>)
    requires DecodeMany(e, n, s).Done?
    ensures IsSuffix(DecodeMany(e, n, s).rest, s)
    decreases e, 2, n
  {
    if n == 0 {
    } else {
      DecodeManySplits(e, n, s);
      var s1 := Decode(e, s).rest;
      DecodeSuffix(e, s);
      ManySuffix(e, n - 1, s1);
      SuffixTransitive(DecodeMany(e, n, s).rest, s1, s);
    }
  }

  lemma {:induction false} ChunksSuffix(e: Coder, s: seq<Byte>)
    requires DecodeChunks(e, s).Done?
    ensures IsSuffix(DecodeChunks(e, s).rest, s)
    decreases e, 3, |s|
  {
    Varint.DecodeLocal(s, []);
    var n, s1 := Varint.Decode(s).value, Varint.Decode(s).rest;
    if n == 0 {
    } else {
      ManySuffix(e, n, s1);
      var s2 := DecodeMany(e, n, s1).rest;
      ChunksSuffix(e, s2);
      SuffixTransitive(DecodeChunks(e, s).rest, s2, s1);
      SuffixTransitive(DecodeChunks(e, s).rest, s1, s);
    }
  }

  lemma {:induction false} IterableSuffix(e: Coder, s: seq<Byte>)
    requires DecodeIterable(e, s).Done?
    ensures IsSuffix(DecodeIterable(e, s).rest, s)
    decreases e, 4, 0
  {
    if TakeNumber(4, s).value < TWO_31 {
      ManySuffix(e, TakeNumber(4, s).value, s[4..]);
    } else {
      ChunksSuffix(e, s[4..]);
    }
    SuffixTransitive(DecodeIterable(e, s).rest, s[4..], s);
  }

  // ----- decoders look no further -----

  /** If `u + rest` is read in two steps, `u` splits at the point between them. */
  lemma CutBetween(u: seq<Byte>, rest: seq<Byte>, s1: seq<Byte>) returns (a: seq<Byte>, w: seq<Byte>)
    requires IsSuffix(s1, u + rest) && IsSuffix(rest, s1)
    ensures u == a + w && s1 == w + rest
    ensures forall t: seq<Byte> :: u + t == a + (w + t)
  {
    w := Used(s1, rest);
    a := Used(u + rest, s1);
    UsedThenRest(s1, rest);
    UsedThenRest(u + rest, s1);
    assert a + w == (u + rest)[..|u|] == u;
    forall t: seq<Byte>
      ensures u + t == a + (w + t)
    {
      Associative(a, w, t);
    }
  }

  lemma NothingUsed(u: seq<Byte>, rest: seq<Byte>, t: seq<Byte>)
    requires u + rest == rest
    ensures u == [] && u + t == t
  {
    assert |u| == 0;
  }

  lemma LeafLocal(c: Coder, u: seq<Byte>, rest: seq<Byte>, p: Primitive, t: seq<Byte>)
    requires IsLeaf(c) && !c.JavaOpaque? && DecodeLeaf(c, u + rest) == Done(p, rest)
    ensures DecodeLeaf(c, u + t) == Done(p, t)
  {
    if c == VarInt || c == VarInt32 {
      VarintLocal(u, rest, Varint.Decode(u + rest).value, t);
    } else if c == Bool {
      assert |u| == 1 && (u + t)[1..] == t;
    } else if c == Double {
      DoubleLocal(u, rest, p, t);
    } else if c == Void {
      NothingUsed(u, rest, t);
    } else {
      DelimitedLocal(u, rest, Varint.DecodeDelimited(u + rest).value, t);
    }
  }

  lemma DoubleLocal(u: seq<Byte>, rest: seq<Byte>, p: Primitive, t: seq<Byte>)
    requires DecodeDouble(u + rest) == Done(p, rest)
    ensures DecodeDouble(u + t) == Done(p, t)
  {
    assert |u| == 8 && (u + t)[..8] == u == (u + rest)[..8] && (u + t)[8..] == t;
  }

  lemma DelimitedLocal(u: seq<Byte>, rest: seq<Byte>, b: seq<Byte>, t: seq<Byte>)
    requires Varint.DecodeDelimited(u + rest) == Done(b, rest)
    ensures Varint.DecodeDelimited(u + t) == Done(b, t)
  {
    Varint.DelimitedLocal(u + rest, t);
    assert Used(u + rest, rest) == u;
  }

  /** Decoding reads a prefix and, in a self-delimiting coder, nothing of what follows it. */
  lemma {:induction false} DecodeLocal(c: Coder, u: seq<Byte>, rest: seq<Byte>, r: Record, t: seq<Byte>)
    requires Delimiting(c, false) && Decode(c, u + rest) == Done(r, rest)
    ensures Decode(c, u + t) == Done(r, t)
    decreases c, 1, 0
  {
    if c.Iterable? {
      IterableLocal(c.element, u, rest, r.list, t);
    } else if c.Nullable? {
      NullableLocal(c, c.inner, u, rest, r, t);
    } else if c.Tuple? {
      TupleLocal(c.components, u, rest, r.values, t);
    } else if c.Kv? {
      KvLocal(c.keyCoder, c.valueCoder, u, rest, r, t);
    } else if c.Gbk? {
      GbkLocal(c.keyCoder, c.element, u, rest, r, t);
    } else {
      LeafLocal(c, u, rest, r.value, t);
    }
  }

  lemma {:induction false} NullableLocal(
    c: Coder, inner: Coder, u: seq<Byte>, rest: seq<Byte>, r: Record, t: seq<Byte>)
    requires c == Nullable(inner) && Delimiting(c, false) && Decode(c, u + rest) == Done(r, rest)
    ensures Decode(c, u + t) == Done(r, t)
    decreases c, 0, 0
  {
    assert |u| > 0;
    assert TakeByte(u + rest) == Done(u[0], u[1..] + rest);
    assert TakeByte(u + t) == Done(u[0], u[1..] + t);
    if u[0] == 1 {
      DecodeLocal(inner, u[1..], rest, r, t);
    } else {
      assert u[1..] == [] by { assert |u[1..] + rest| == |rest|; }
      assert u[1..] + t == t;
    }
  }

  lemma {:induction false} KvLocal(k: Coder, v: Coder, u: seq<Byte>, rest: seq<Byte>, r: Record, t: seq<Byte>)
    requires Delimiting(k, false) && Delimiting(v, false) && Decode(Kv(k, v), u + rest) == Done(r, rest)
    ensures Decode(Kv(k, v), u + t) == Done(r, t)
    decreases Kv(k, v), 0, 0
  {
    KvDecodeSplits(k, v, u + rest);
    var s1 := DecodeKey(k, u + rest).rest;
    KeySuffix(k, u + rest);
    DecodeSuffix(v, s1);
    var a, w := CutBetween(u, rest, s1);
    KeyLocal(k, a, s1, r.key, w + t);
    DecodeLocal(v, w, rest, r.payload, t);
    KvDecodes(k, v, a + (w + t), r.key, w + t, r.payload, t);
  }

  lemma {:induction false} GbkLocal(k: Coder, e: Coder, u: seq<Byte>, rest: seq<Byte>, r: Record, t: seq<Byte>)
    requires Delimiting(k, false) && Delimiting(e, false) && Decode(Gbk(k, e), u + rest) == Done(r, rest)
    ensures Decode(Gbk(k, e), u + t) == Done(r, t)
    decreases Gbk(k, e), 0, 0
  {
    GbkDecodeSplits(k, e, u + rest);
    var s1 := DecodeKey(k, u + rest).rest;
    KeySuffix(k, u + rest);
    IterableSuffix(e, s1);
    var a, w := CutBetween(u, rest, s1);
    KeyLocal(k, a, s1, r.key, w + t);
    IterableLocal(e, w, rest, r.list, t);
    GbkDecodes(k, e, a + (w + t), r.key, w + t, r.list, t);
  }

  lemma {:induction false} KeyLocal(k: Coder, u: seq<Byte>, rest: seq<Byte>, key: Primitive, t: seq<Byte>)
    requires Delimiting(k, false) && DecodeKey(k, u + rest) == Done(key, rest)
    ensures DecodeKey(k, u + t) == Done(key, t)
    decreases k, 2, 0
  {
    DecodeLocal(k, u, rest, Decode(k, u + rest).value, t);
  }

  lemma {:induction false} TupleLocal(cs: seq<Coder>, u: seq<Byte>, rest: seq<Byte>, vs: seq<Primitive>, t: seq<Byte>)
    requires (forall i :: 0 <= i < |cs| ==> Delimiting(cs[i], false)) && DecodeTuple(cs, u + rest) == Done(vs, rest)
    ensures DecodeTuple(cs, u + t) == Done(vs, t)
    decreases cs, 0, 0
  {
    if cs == [] {
      NothingUsed(u, rest, t);
    } else {
      var p := Decode(cs[0], u + rest);
      DecodeSuffix(cs[0], u + rest);
      TupleSuffix(cs[1..], p.rest);
      var a, w := CutBetween(u, rest, p.rest);
      DecodeLocal(cs[0], a, p.rest, p.value, w + t);
      TupleLocal(cs[1..], w, rest, DecodeTuple(cs[1..], p.rest).value, t);
    }
  }

  lemma {:induction false} DecodeManyCons(
    e: Coder, n: nat, s: seq<Byte>, r: Record, s1: seq<Byte>, list: seq<Record>, t: seq<Byte>)
    requires n > 0 && Decode(e, s) == Done(r, s1) && DecodeMany(e, n - 1, s1) == Done(list, t)
    ensures DecodeMany(e, n, s) == Done([r] + list, t)
  {
  }

  lemma {:induction false} NoneLocal(e: Coder, u: seq<Byte>, rest: seq<Byte>, list: seq<Record>, t: seq<Byte>)
    requires DecodeMany(e, 0, u + rest) == Done(list, rest)
    ensures DecodeMany(e, 0, u + t) == Done(list, t)
  {
    NothingUsed(u, rest, t);
  }

  lemma {:induction false} ManyLocal(
    e: Coder, n: nat, u: seq<Byte>, rest: seq<Byte>, list: seq<Record>, t: seq<Byte>)
    requires Delimiting(e, false) && DecodeMany(e, n, u + rest) == Done(list, rest)
    ensures DecodeMany(e, n, u + t) == Done(list, t)
    decreases e, 2, n, 1
  {
    if n == 0 {
      NoneLocal(e, u, rest, list, t);
    } else {
      DecodeManySplits(e, n, u + rest);
      var p := Decode(e, u + rest);
      ManyLocalCons(e, n - 1, u, rest, p.value, p.rest, DecodeMany(e, n - 1, p.rest).value, t);
    }
  }

  lemma {:induction false} ManyLocalCons(
    e: Coder, n: nat, u: seq<Byte>, rest: seq<Byte>, r: Record, s1: seq<Byte>, tail: seq<Record>, t: seq<Byte>)
    requires Delimiting(e, false) && Decode(e, u + rest) == Done(r, s1) && DecodeMany(e, n, s1) == Done(tail, rest)
    ensures DecodeMany(e, n + 1, u + t) == Done([r] + tail, t)
    decreases e, 2, n + 1, 0
  {
    DecodeSuffix(e, u + rest);
    ManySuffix(e, n, s1);
    var a, w := CutBetween(u, rest, s1);
    DecodeLocal(e, a, s1, r, w + t);
    ManyLocal(e, n, w, rest, tail, t);
    DecodeManyCons(e, n + 1, a + (w + t), r, w + t, tail, t);
  }

  lemma {:induction false} DecodeChunksSplits(e: Coder, s: seq<Byte>)
    requires DecodeChunks(e, s).Done?
    ensures Varint.Decode(s).Done?
    ensures var n := Varint.Decode(s);
            if n.value == 0 then DecodeChunks(e, s) == Done([], n.rest)
            else
              var p := DecodeMany(e, n.value, n.rest);
              && p.Done?
              && var q := DecodeChunks(e, p.rest);
              q.Done? && DecodeChunks(e, s) == Done(p.value + q.value, q.rest)
  {
  }

  lemma VarintLocal(u: seq<Byte>, rest: seq<Byte>, n: UInt64, t: seq<Byte>)
    requires Varint.Decode(u + rest) == Done(n, rest)
    ensures Varint.Decode(u + t) == Done(n, t)
  {
    Varint.DecodeLocal(u + rest, t);
    assert Used(u + rest, rest) == u;
  }

  lemma {:induction false} ChunksLocal(e: Coder, u: seq<Byte>, rest: seq<Byte>, list: seq<Record>, t: seq<Byte>)
    requires Delimiting(e, false) && DecodeChunks(e, u + rest) == Done(list, rest)
    ensures DecodeChunks(e, u + t) == Done(list, t)
    decreases e, 3, |u|
  {
    DecodeChunksSplits(e, u + rest);
    var n := Varint.Decode(u + rest);
    Varint.DecodeLocal(u + rest, []);
    if n.value == 0 {
      VarintLocal(u, rest, 0, t);
    } else {
      var p := DecodeMany(e, n.value, n.rest);
      var q := DecodeChunks(e, p.rest);
      ManySuffix(e, n.value, n.rest);
      ChunksSuffix(e, p.rest);
      SuffixTransitive(rest, p.rest, n.rest);
      var a, w := CutBetween(u, rest, n.rest);
      var b, x := CutBetween(w, rest, p.rest);
      VarintLocal(a, n.rest, n.value, w + t);
      ManyLocal(e, n.value, b, p.rest, p.value, x + t);
      ChunksLocal(e, x, rest, q.value, t);
      DecodeChunksCons(e, a + (w + t), n.value, w + t, p.value, x + t, q.value, t);
    }
  }

  lemma {:induction false} IterableLocal(e: Coder, u: seq<Byte>, rest: seq<Byte>, list: seq<Record>, t: seq<Byte>)
    requires Delimiting(e, false) && DecodeIterable(e, u + rest) == Done(list, rest)
    ensures DecodeIterable(e, u + t) == Done(list, t)
    decreases e, 4, 0
  {
    assert |u| >= 4 by {
      assert |rest| <= |u + rest| - 4;
    }
    TakeNumberPrefix(4, u, rest);
    TakeNumberPrefix(4, u, t);
    var n := FromBigEndian(u[..4]);
    if n < TWO_31 {
      ManyLocal(e, n, u[4..], rest, list, t);
    } else {
      ChunksLocal(e, u[4..], rest, list, t);
    }
  }

  /**
   A self-delimiting decoder never accepts a truncated value: no proper prefix of the
   bytes one decode consumes decodes at all.
   */
  lemma TruncationNeverDecodes(c: Coder, s: seq<Byte>, n: nat)
    requires Delimiting(c, false) && Decode(c, s).Done? && n < |s| - |Decode(c, s).rest|
    ensures Decode(c, s[..n]).Failed?
  {
    assert s == s[..n] + s[n..];
    if Decode(c, s[..n]).Done? {
      var p := Decode(c, s[..n]);
      DecodeSuffix(c, s[..n]);
      var u := Used(s[..n], p.rest);
      UsedThenRest(s[..n], p.rest);
      DecodeLocal(c, u, p.rest, p.value, p.rest + s[n..]);
      Associative(u, p.rest, s[n..]);
    }
  }
}
