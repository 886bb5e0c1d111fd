/** The main results about the coder algebra. */
module CoderTheorems {
  import opened Bytes
  import opened Coders
  import opened CoderLaws
  import Varint

  // ----- typing -----

  lemma {:induction false} SendableHasType(c: Coder, r: Record, last: bool)
    requires Sendable(c, r, last)
    ensures HasType(c, r)
    decreases c, 1, 0
  {
    if c.Iterable? {
      SendableListHasType(c.element, r.list, last);
    } else if c.Nullable? {
      if r != Prim(Unit) { SendableHasType(c.inner, r, last); }
    } else if c.Tuple? {
      SendableTupleHasType(c.components, r.values, last);
    } else if c.Kv? {
      if r.KV? {
        SendableHasType(c.valueCoder, r.payload, last);
        SendableKeyHasType(c.keyCoder, r.key, last && Encode(c.valueCoder, r.payload) == Some([]));
      } else {
        SendableHasType(c.valueCoder, Iter(r.list), last);
        SendableKeyHasType(c.keyCoder, r.key, false);
      }
    } else if c.Gbk? {
      SendableListHasType(c.element, r.list, last);
      SendableKeyHasType(c.keyCoder, r.key, false);
    }
  }

  lemma {:induction false} SendableKeyHasType(k: Coder, key: Primitive, last: bool)
    requires SendableKey(k, key, last)
    ensures HasKeyType(k, key)
    decreases k, 2, 0
  {
    if IsPrimitive(k) {
      SendableHasType(k, Prim(key), last);
    } else {
      var r :| Sendable(k, r, last) && Encode(k, r) == Some(key.bytes);
      SendableHasType(k, r, last);
    }
  }

  lemma {:induction false} SendableListHasType(e: Coder, list: seq<Record>, last: bool)
    requires SendableList(e, list, last)
    ensures forall i :: 0 <= i < |list| ==> HasType(e, list[i])
    decreases e, 2, |list|
  {
    if list == [] {
    } else {
      SendableHasType(e, list[0], last && EncodeList(e, list[1..]) == Some([]));
      SendableListHasType(e, list[1..], last);
      assert forall i :: 0 < i < |list| ==> list[i] == list[1..][i - 1];
    }
  }

  lemma {:induction false} SendableTupleHasType(cs: seq<Coder>, vs: seq<Primitive>, last: bool)
    requires SendableTuple(cs, vs, last)
    ensures |cs| == |vs| && forall i :: 0 <= i < |cs| ==> HasType(cs[i], Prim(vs[i]))
    decreases cs, 0, 0
  {
    if cs == [] {
    } else {
      SendableHasType(cs[0], Prim(vs[0]), last && EncodeTuple(cs[1..], vs[1..]) == Some([]));
      SendableTupleHasType(cs[1..], vs[1..], last);
      assert forall i :: 0 < i < |cs| ==> cs[i] == cs[1..][i - 1] && vs[i] == vs[1..][i - 1];
    }
  }

  lemma {:induction false} TypedEncodes(c: Coder, r: Record)
    requires HasType(c, r)
    ensures Encode(c, r).Some? && ListsFit(Normal(c, r))
    decreases c, 1, 0
  {
    if c.Iterable? {
      TypedEncodesList(c.element, r.list);
    } else if c.Nullable? {
      if r != Prim(Unit) { TypedEncodes(c.inner, r); }
    } else if c.Tuple? {
      TypedEncodesTuple(c.components, r.values);
    } else if c.Kv? {
      TypedEncodesKey(c.keyCoder, r.key);
      if r.KV? {
        TypedEncodes(c.valueCoder, r.payload);
      } else {
        TypedEncodes(c.valueCoder, Iter(r.list));
      }
    } else if c.Gbk? {
      TypedEncodesKey(c.keyCoder, r.key);
      TypedEncodesList(c.element, r.list);
    }
  }

  lemma {:induction false} TypedEncodesKey(k: Coder, key: Primitive)
    requires HasKeyType(k, key)
    ensures EncodeKey(k, key).Some?
    decreases k, 2, 0
  {
    if IsPrimitive(k) {
      TypedEncodes(k, Prim(key));
      EncodePrimitiveIsEncode(k, key);
    }
  }

  lemma {:induction false} TypedEncodesList(e: Coder, list: seq<Record>)
    requires forall i :: 0 <= i < |list| ==> HasType(e, list[i])
    ensures EncodeList(e, list).Some? && AllFit(NormalList(e, list))
    decreases e, 2, |list|
  {
    if list == [] {
    } else {
      TypedEncodes(e, list[0]);
      TypedEncodesList(e, list[1..]);
    }
  }

  lemma {:induction false} TypedEncodesTuple(cs: seq<Coder>, vs: seq<Primitive>)
    requires |cs| == |vs| && forall i :: 0 <= i < |cs| ==> HasType(cs[i], Prim(vs[i]))
    ensures EncodeTuple(cs, vs).Some?
    decreases cs, 0, 0
  {
    if cs == [] {
    } else {
      TypedEncodes(cs[0], Prim(vs[0]));
      TypedEncodesTuple(cs[1..], vs[1..]);
    }
  }

  // ----- the exact condition for the round trip -----

  lemma {:induction false} SendableOfNormal(c: Coder, r: Record, last: bool)
    requires HasType(c, r) && Sendable(c, Normal(c, r), last)
    ensures Sendable(c, r, last)
    decreases c, 1, 0
  {
    NormalOfPrim(c, r);
    if c.Iterable? {
      SendableOfNormalList(c.element, r.list, last);
    } else if c.Nullable? {
      if r != Prim(Unit) { SendableOfNormal(c.inner, r, last); }
    } else if c.Kv? {
      if r.KV? {
        SendableOfNormal(c.valueCoder, r.payload, last);
        EncodeNormal(c.valueCoder, r.payload);
      } else {
        SendableOfNormalGrouped(c.keyCoder, c.valueCoder, r.key, r.list, last);
      }
    } else if c.Gbk? {
      SendableOfNormalList(c.element, r.list, last);
    }
  }

  lemma {:induction false} SendableOfNormalGrouped(
    k: Coder, v: Coder, key: Primitive, list: seq<Record>, last: bool)
    requires v.Iterable? && HasType(v, Iter(list))
    requires Sendable(Kv(k, v), KV(key, Iter(NormalList(v.element, list))), last)
    ensures Sendable(Kv(k, v), GBK(key, list), last)
    decreases v, 2, 0
  {
    SendableOfNormal(v, Iter(list), last);
    var out := Iter(NormalList(v.element, list));
    assert Encode(v, out) != Some([]) by {
      assert Encode(v, out).Some? ==> |Encode(v, out).value| >= 4;
    }
  }

  lemma {:induction false} SendableOfNormalList(e: Coder, list: seq<Record>, last: bool)
    requires forall i :: 0 <= i < |list| ==> HasType(e, list[i])
    requires SendableList(e, NormalList(e, list), last)
    ensures SendableList(e, list, last)
    decreases e, 2, |list|
  {
    if list == [] {
    } else {
      EncodeNormalList(e, list[1..]);
      assert NormalList(e, list)[1..] == NormalList(e, list[1..]);
      SendableOfNormal(e, list[0], last && EncodeList(e, list[1..]) == Some([]));
      SendableOfNormalList(e, list[1..], last);
    }
  }

  /**
   A typed record followed by `t` comes back as its normal form, with `t` left over,
   exactly when every opaque Java leaf in it is followed by no byte.
   */
  lemma RoundTripExactly(c: Coder, r: Record, t: seq<Byte>)
    requires HasType(c, r)
    ensures Encode(c, r).Some?
    ensures Decode(c, Encode(c, r).value + t) == Done(Normal(c, r), t) <==> Sendable(c, r, t == [])
  {
    TypedEncodes(c, r);
    var s := Encode(c, r).value + t;
    if Sendable(c, r, t == []) {
      RoundTrip(c, r, t);
    } else if Decode(c, s) == Done(Normal(c, r), t) {
      DecodeCanonical(c, s);
      SendableOfNormal(c, r, t == []);
    }
  }

  // ----- decoding canonicalises -----

  /**
   For every coder and every byte string: what was decoded is well typed and normal,
   it can be written back exactly when its lists fit, and then it reads back as
   itself in front of the same remaining bytes.
   */
  lemma DecodeThenEncode(c: Coder, s: seq<Byte>)
    requires Decode(c, s).Done?
    ensures var r := Decode(c, s).value;
            && Normal(c, r) == r
            && (Encode(c, r).Some? <==> ListsFit(r))
            && (HasType(c, r) <==> ListsFit(r))
            && (ListsFit(r) ==> Decode(c, Encode(c, r).value + Decode(c, s).rest) == Done(r, Decode(c, s).rest))
  {
    DecodeCanonical(c, s);
    var r, rest := Decode(c, s).value, Decode(c, s).rest;
    if ListsFit(r) {
      SendableHasType(c, r, rest == []);
      RoundTrip(c, r, rest);
    } else if HasType(c, r) {
      TypedEncodes(c, r);
    }
  }

  // ----- lists of unknown length -----

  /** How an SDK writes a list whose length it does not know beforehand. */
  function EncodeChunks(e: Coder, chunks: seq<seq<Record>>): Option<seq<Byte>> {
    if chunks == [] then Some([0])
    else
      Append(Append(Some(Varint.Encode(|chunks[0]|)), EncodeList(e, chunks[0])), EncodeChunks(e, chunks[1..]))
  }

  ghost predicate SendableChunks(e: Coder, chunks: seq<seq<Record>>) {
    forall i :: 0 <= i < |chunks| ==> 0 < |chunks[i]| < TWO_64 && SendableList(e, chunks[i], false)
  }

  lemma {:induction false} ChunksRoundTrip(e: Coder, chunks: seq<seq<Record>>, t: seq<Byte>)
    requires SendableChunks(e, chunks)
    ensures EncodeChunks(e, chunks).Some?
    ensures DecodeChunks(e, EncodeChunks(e, chunks).value + t) == Done(NormalList(e, Flatten(chunks)), t)
    decreases |chunks|
  {
    if chunks == [] {
      assert Varint.Encode(0) == [0];
      Varint.RoundTrip(0, t);
    } else {
      var chunk, tail := chunks[0], Flatten(chunks[1..]);
      ChunksRoundTrip(e, chunks[1..], t);
      var b := EncodeChunks(e, chunks[1..]).value;
      ChunksNotEmpty(e, chunks[1..]);
      RoundTripList(e, chunk, b + t);
      var n, a := Varint.Encode(|chunk|), EncodeList(e, chunk).value;
      Varint.RoundTrip(|chunk|, a + (b + t));
      DecodeChunksCons(e, n + (a + (b + t)), |chunk|, a + (b + t), NormalList(e, chunk), b + t, NormalList(e, tail), t);
      ListConcat(e, chunk, tail);
      Associative(n + a, b, t);
      Associative(n, a, b + t);
    }
  }

  lemma {:induction false} ChunksNotEmpty(e: Coder, chunks: seq<seq<Record>>)
    requires EncodeChunks(e, chunks).Some?
    ensures EncodeChunks(e, chunks).value != []
    decreases |chunks|
  {
    if chunks == [] {
    } else {
      ChunksNotEmpty(e, chunks[1..]);
    }
  }

  lemma {:induction false} FlattenSendable(e: Coder, chunks: seq<seq<Record>>)
    requires SendableChunks(e, chunks)
    ensures SendableList(e, Flatten(chunks), false)
    decreases |chunks|
  {
    if chunks == [] {
    } else {
      FlattenSendable(e, chunks[1..]);
      SendableConcat(e, chunks[0], Flatten(chunks[1..]), false);
    }
  }

  /** However a list is cut into chunks, it decodes like the counted form of the same elements. */
  lemma {:induction false} ChunkedListLikeCounted(e: Coder, chunks: seq<seq<Record>>, t: seq<Byte>)
    requires SendableChunks(e, chunks)
    ensures EncodeChunks(e, chunks).Some?
    ensures var chunked := DecodeIterable(e, BigEndian(4, TWO_32 - 1) + (EncodeChunks(e, chunks).value + t));
            && chunked == Done(NormalList(e, Flatten(chunks)), t)
            && (|Flatten(chunks)| <= MAX_LIST ==>
                  && EncodeIterable(e, Flatten(chunks)).Some?
                  && DecodeIterable(e, EncodeIterable(e, Flatten(chunks)).value + t) == chunked)
  {
    ChunksRoundTrip(e, chunks, t);
    ChunkedDecodes(e, EncodeChunks(e, chunks).value + t);
    if |Flatten(chunks)| <= MAX_LIST {
      FlattenSendable(e, chunks);
      SendableListMonotone(e, Flatten(chunks), false, t == []);
      RoundTripIterable(e, Flatten(chunks), t);
    }
  }

  lemma {:induction false} ChunkedDecodes(e: Coder, s: seq<Byte>)
    ensures DecodeIterable(e, BigEndian(4, TWO_32 - 1) + s) == DecodeChunks(e, s)
  {
    Pow256Values();
    TakeNumberOfBigEndian(4, TWO_32 - 1, s);
  }

  function Units(n: nat): (list: seq<Record>)
    ensures |list| == n
  {
    seq(n, _ => Prim(Unit))
  }

  lemma {:induction false} DecodeManyVoid(n: nat, s: seq<Byte>)
    ensures DecodeMany(Void, n, s) == Done(Units(n), s)
  {
    if n == 0 {
      assert Units(0) == [];
    } else {
      DecodeManyVoid(n - 1, s);
      assert [Prim(Unit)] + Units(n - 1) == Units(n);
    }
  }

  /** One chunk of `n` zero-byte elements. */
  function VoidChunk(n: UInt64): seq<Byte> {
    BigEndian(4, TWO_32 - 1) + (Varint.Encode(n) + [0])
  }

  lemma VoidChunkDecodes(n: UInt64)
    requires n > 0
    ensures DecodeIterable(Void, VoidChunk(n)) == Done(Units(n), [])
  {
    Pow256Values();
    TakeNumberOfBigEndian(4, TWO_32 - 1, Varint.Encode(n) + [0]);
    Varint.RoundTrip(n, [0]);
    DecodeManyVoid(n, [0]);
    assert DecodeChunks(Void, [0]) == Done([], []) by {
      Varint.RoundTrip(0, []);
      assert [0] == Varint.Encode(0) + [];
    }
    assert Units(n) + [] == Units(n);
  }

  /** The condition is needed: at most fifteen bytes decode to a list too long to be written again. */
  lemma ChunkedListTooLong(n: UInt64)
    requires n >= TWO_31
    ensures var p := Decode(Iterable(Void), VoidChunk(n));
            |VoidChunk(n)| <= 15 && p == Done(Iter(Units(n)), []) && Encode(Iterable(Void), p.value).None?
  {
    VoidChunkDecodes(n);
    Varint.AtMostTenBytes(n);
  }

  // ----- keys -----

  /** `decode_key` canonicalises: decode, encode, decode of a key is one decode. */
  lemma KeyRedecodes(k: Coder, s: seq<Byte>)
    requires DecodeKey(k, s).Done?
    ensures var key, rest := DecodeKey(k, s).value, DecodeKey(k, s).rest;
            && HasKeyType(k, key)
            && EncodeKey(k, key).Some?
            && DecodeKey(k, EncodeKey(k, key).value + rest) == Done(key, rest)
  {
    DecodeKeyCanonical(k, s);
    var key, rest := DecodeKey(k, s).value, DecodeKey(k, s).rest;
    SendableKeyHasType(k, key, rest == []);
    RoundTripKey(k, key, rest);
  }

  /**
   Grouping by stored key is grouping by logical key: two wire keys get equal stored
   values exactly when they decode to the same record, whichever wire form they used.
   */
  lemma GroupingAgrees(k: Coder, s1: seq<Byte>, s2: seq<Byte>)
    requires DecodeKey(k, s1).Done? && DecodeKey(k, s2).Done?
    ensures Decode(k, s1).Done? && Decode(k, s2).Done?
    ensures DecodeKey(k, s1).value == DecodeKey(k, s2).value <==> Decode(k, s1).value == Decode(k, s2).value
  {
    if !IsPrimitive(k) && DecodeKey(k, s1).value == DecodeKey(k, s2).value {
      StoredKeyReads(k, s1);
      StoredKeyReads(k, s2);
    }
  }

  /** A stored composite key is itself a wire form of the record it stands for. */
  lemma StoredKeyReads(k: Coder, s: seq<Byte>)
    requires !IsPrimitive(k) && DecodeKey(k, s).Done?
    ensures DecodeKey(k, s).value.Raw?
    ensures Decode(k, DecodeKey(k, s).value.bytes) == Done(Decode(k, s).value, [])
  {
    DecodeCanonical(k, s);
    var r, rest := Decode(k, s).value, Decode(k, s).rest;
    SendableMonotone(k, r, rest == [], true);
    RoundTrip(k, r, []);
    var raw := Encode(k, r).value;
    assert raw + [] == raw;
  }

  // ----- the element context -----

  /** The coder at the end of the chain of key-value values. */
  function SpineEnd(c: Coder): Coder {
    if c.Kv? then SpineEnd(c.valueCoder) else c
  }

  /** Outside the two raw leaves the element context is the nested one. */
  lemma {:induction false} ElementAgrees(c: Coder, s: seq<Byte>)
    requires !SpineEnd(c).StringUtf8? && !SpineEnd(c).BytesCoder?
    ensures DecodeElement(c, s) == Decode(c, s)
  {
    if !c.Kv? || DecodeKey(c.keyCoder, s).Failed? {
    } else {
      ElementAgrees(c.valueCoder, DecodeKey(c.keyCoder, s).rest);
    }
  }

  /** The bytes in the spine-ending leaf of a record. */
  function SpineBytes(r: Record): seq<Byte> {
    match r
    case KV(_, payload) => SpineBytes(payload)
    case Prim(Str(s)) => s
    case Prim(Raw(b)) => b
    case _ => []
  }

  /** The encoding of everything before the spine-ending leaf. */
  function SpinePrefix(c: Coder, r: Record): Option<seq<Byte>> {
    if c.Kv? && r.KV? then Append(EncodeKey(c.keyCoder, r.key), SpinePrefix(c.valueCoder, r.payload)) else Some([])
  }

  /**
   Where the spine ends in a raw leaf, the nested encoding is a prefix, the leaf's
   length and the leaf; without the length, `decode_element` reads the same record
   and consumes everything.
   */
  lemma {:induction false} ElementReadsRaw(c: Coder, r: Record)
    requires SpineEnd(c).StringUtf8? || SpineEnd(c).BytesCoder?
    requires Sendable(c, r, true)
    ensures SpinePrefix(c, r).Some? && Sendable(c, r, false)
    ensures Encode(c, r) == Some(SpinePrefix(c, r).value + Varint.EncodeDelimited(SpineBytes(r)))
    ensures DecodeElement(c, SpinePrefix(c, r).value + SpineBytes(r)) == Done(Normal(c, r), [])
    decreases c
  {
    if c.Kv? {
      var k, v := c.keyCoder, c.valueCoder;
      ElementReadsRaw(v, r.payload);
      var pre, leaf := SpinePrefix(v, r.payload).value, SpineBytes(r.payload);
      assert Encode(v, r.payload) != Some([]) by { assert Varint.EncodeDelimited(leaf) != []; }
      SendableKeyMonotone(k, r.key, false, pre + leaf == []);
      RoundTripKey(k, r.key, pre + leaf);
      var a := EncodeKey(k, r.key).value;
      KvEncodes(k, v, r.key, r.payload, a, pre + Varint.EncodeDelimited(leaf));
      Associative(a, pre, Varint.EncodeDelimited(leaf));
      Associative(a, pre, leaf);
    } else {
      var leaf := SpineBytes(r);
      assert [] + leaf == leaf && [] + Varint.EncodeDelimited(leaf) == Varint.EncodeDelimited(leaf);
    }
  }

  /** Hence both contexts read the same record from their own form of it. */
  lemma ElementRefinesNested(c: Coder, r: Record, t: seq<Byte>)
    requires SpineEnd(c).StringUtf8? || SpineEnd(c).BytesCoder?
    requires Sendable(c, r, true)
    ensures SpinePrefix(c, r).Some? && Encode(c, r).Some?
    ensures var nested := Decode(c, Encode(c, r).value + t);
            var element := DecodeElement(c, SpinePrefix(c, r).value + SpineBytes(r));
            nested.Done? && element.Done? && nested.value == element.value && element.rest == [] && nested.rest == t
  {
    ElementReadsRaw(c, r);
    SendableMonotone(c, r, false, t == []);
    RoundTrip(c, r, t);
  }
}
