/** Self-delimitation and canonical form: what the coders guarantee to each other and to the key store. */
module CoderLaws {
  import opened Bytes
  import opened Coders
  import Varint

  predicate IsLeaf(c: Coder) {
    !(c.Iterable? || c.Nullable? || c.Tuple? || c.Kv? || c.Gbk?)
  }

  // ----- normal forms -----

  lemma {:induction false} NormalOfPrim(c: Coder, r: Record)
    ensures r.Prim? ==> Normal(c, r) == r
    ensures Normal(c, r).Prim? ==> r.Prim?
  {
    if !c.Nullable? {
    } else {
      NormalOfPrim(c.inner, r);
    }
  }

  /** Normalising never changes the bytes. */
  lemma {:induction false} EncodeNormal(c: Coder, r: Record)
    ensures Encode(c, Normal(c, r)) == Encode(c, r)
    decreases c, 0, 0
  {
    NormalOfPrim(c, r);
    match c
    case Iterable(e) => if r.Iter? { EncodeNormalList(e, r.list); }
    case Nullable(inner) => EncodeNormal(inner, r);
    case Kv(_, v) =>
      if r.KV? {
        EncodeNormal(v, r.payload);
      } else if r.GBK? && v.Iterable? {
        var out := NormalList(v.element, r.list);
        EncodeNormalList(v.element, r.list);
        assert Encode(v, Iter(out)) == EncodeIterable(v.element, out);
      }
    case Gbk(_, e) => if r.GBK? { EncodeNormalList(e, r.list); }
    case _ =>
  }

  lemma {:induction false} EncodeNormalList(e: Coder, list: seq<Record>)
    ensures EncodeList(e, NormalList(e, list)) == EncodeList(e, list)
    decreases e, 1, |list|
  {
    if list == [] {
    } else {
      EncodeNormal(e, list[0]);
      EncodeNormalList(e, list[1..]);
      assert NormalList(e, list)[1..] == NormalList(e, list[1..]);
    }
  }

  // ----- round trip -----

  lemma AppendNothing()
    ensures Append(Some([]), Some([])) == Some([])
  {
    var none: seq<Byte> := [];
    assert none + none == none;
  }

  lemma Associative(a: seq<Byte>, b: seq<Byte>, t: seq<Byte>)
    ensures (a + b) + t == a + (b + t)
  {
  }

  /** `Append` regrouped: `x` may stand for a failed encoding, and so may the others. */
  lemma AppendAssociative(x: Option<seq<Byte>>, y: Option<seq<Byte>>, z: Option<seq<Byte>>)
    ensures Append(Append(x, y), z) == Append(x, Append(y, z))
  {
    if x.Some? && y.Some? && z.Some? {
      Associative(x.value, y.value, z.value);
    }
  }

  lemma AppendToNothing(x: Option<seq<Byte>>)
    ensures Append(Some([]), x) == x
  {
    if x.Some? {
      assert [] + x.value == x.value;
    }
  }

  lemma LeafRoundTrip(c: Coder, p: Primitive, t: seq<Byte>)
    requires IsLeaf(c) && Sendable(c, Prim(p), t == [])
    ensures EncodePrimitive(c, p).Some? && DecodeLeaf(c, EncodePrimitive(c, p).value + t) == Done(p, t)
  {
    if c == VarInt {
      Varint.SignedRoundTrip(p.i, t);
    } else if c == VarInt32 {
      Varint.RoundTrip32(p.i, t);
    } else if c == Double {
      Pow256Values();
      TakeNumberOfBigEndian(8, p.bits, t);
    } else if c == Void {
      assert [] + t == t;
    } else if c == JavaOpaque {
      assert p.bytes + t == p.bytes;
    } else if c == StringUtf8 {
      Varint.DelimitedRoundTrip(p.utf8, t);
    } else if c != Bool {
      Varint.DelimitedRoundTrip(p.bytes, t);
    }
  }

  /**
   Every sendable record, in whatever byte context, decodes to its normal form
   and leaves exactly the bytes that followed it.
   */
  lemma {:induction false} RoundTrip(c: Coder, r: Record, t: seq<Byte>)
    requires Sendable(c, r, t == [])
    ensures Encode(c, r).Some? && Decode(c, Encode(c, r).value + t) == Done(Normal(c, r), t)
    decreases c, 1, 0
  {
    if c.Iterable? {
      RoundTripIterable(c.element, r.list, t);
    } else if c.Tuple? {
      RoundTripTuple(c.components, r.values, t);
    } else if c.Nullable? {
      RoundTripNullable(c, c.inner, r, t);
    } else if c.Kv? {
      if r.KV? {
        RoundTripKv(c.keyCoder, c.valueCoder, r.key, r.payload, t);
      } else {
        RoundTripGrouped(c, c.keyCoder, c.valueCoder.element, r.key, r.list, t);
      }
    } else if c.Gbk? {
      RoundTripGrouped(c, c.keyCoder, c.element, r.key, r.list, t);
    } else {
      LeafRoundTrip(c, r.value, t);
    }
  }

  lemma {:induction false} RoundTripNullable(c: Coder, inner: Coder, r: Record, t: seq<Byte>)
    requires c == Nullable(inner) && Sendable(c, r, t == [])
    ensures Encode(c, r).Some? && Decode(c, Encode(c, r).value + t) == Done(Normal(c, r), t)
    decreases c, 0, 0
  {
    if r != Prim(Unit) {
      RoundTrip(inner, r, t);
      var b := Encode(inner, r).value;
      Associative([1], b, t);
      assert TakeByte([1] + (b + t)) == Done(1, b + t);
    }
  }

  lemma {:induction false} KvDecodes(
    k: Coder, v: Coder, s: seq<Byte>, key: Primitive, s1: seq<Byte>, payload: Record, t: seq<Byte>)
    requires DecodeKey(k, s) == Done(key, s1) && Decode(v, s1) == Done(payload, t)
    ensures Decode(Kv(k, v), s) == Done(KV(key, payload), t)
  {
  }

  lemma {:induction false} GbkDecodes(
    k: Coder, e: Coder, s: seq<Byte>, key: Primitive, s1: seq<Byte>, list: seq<Record>, t: seq<Byte>)
    requires DecodeKey(k, s) == Done(key, s1) && DecodeIterable(e, s1) == Done(list, t)
    ensures Decode(Gbk(k, e), s) == Done(GBK(key, list), t)
  {
  }

  lemma {:induction false} KvDecodeSplits(k: Coder, v: Coder, s: seq<Byte>)
    requires Decode(Kv(k, v), s).Done?
    ensures var p := DecodeKey(k, s);
            && p.Done?
            && var q := Decode(v, p.rest);
            q.Done? && Decode(Kv(k, v), s) == Done(KV(p.value, q.value), q.rest)
  {
  }

  lemma {:induction false} GbkDecodeSplits(k: Coder, e: Coder, s: seq<Byte>)
    requires Decode(Gbk(k, e), s).Done?
    ensures var p := DecodeKey(k, s);
            && p.Done?
            && var q := DecodeIterable(e, p.rest);
            q.Done? && Decode(Gbk(k, e), s) == Done(GBK(p.value, q.value), q.rest)
  {
  }

  lemma {:induction false} KvEncodes(k: Coder, v: Coder, key: Primitive, payload: Record, a: seq<Byte>, b: seq<Byte>)
    requires EncodeKey(k, key) == Some(a) && Encode(v, payload) == Some(b)
    ensures Encode(Kv(k, v), KV(key, payload)) == Some(a + b)
  {
  }

  lemma {:induction false} GbkEncodes(k: Coder, e: Coder, key: Primitive, list: seq<Record>)
    ensures Encode(Gbk(k, e), GBK(key, list)) == Append(EncodeKey(k, key), EncodeIterable(e, list))
  {
  }

  lemma {:induction false} GroupedEncodes(
    k: Coder, e: Coder, key: Primitive, list: seq<Record>, a: seq<Byte>, b: seq<Byte>)
    requires EncodeKey(k, key) == Some(a) && EncodeIterable(e, list) == Some(b)
    ensures Encode(Gbk(k, e), GBK(key, list)) == Some(a + b)
    ensures Encode(Kv(k, Iterable(e)), GBK(key, list)) == Some(a + b)
  {
  }

  lemma {:induction false} RoundTripKv(k: Coder, v: Coder, key: Primitive, payload: Record, t: seq<Byte>)
    requires Sendable(v, payload, t == []) && SendableKey(k, key, t == [] && Encode(v, payload) == Some([]))
    ensures Encode(Kv(k, v), KV(key, payload)).Some?
    ensures Decode(Kv(k, v), Encode(Kv(k, v), KV(key, payload)).value + t) == Done(KV(key, Normal(v, payload)), t)
    decreases Kv(k, v), 0, 0
  {
    RoundTrip(v, payload, t);
    var b := Encode(v, payload).value;
    RoundTripKey(k, key, b + t);
    var a := EncodeKey(k, key).value;
    KvEncodes(k, v, key, payload, a, b);
    Associative(a, b, t);
    KvDecodes(k, v, a + (b + t), key, b + t, Normal(v, payload), t);
  }

  lemma {:induction false} RoundTripGrouped(
    c: Coder, k: Coder, e: Coder, key: Primitive, list: seq<Record>, t: seq<Byte>)
    requires c == Gbk(k, e) || c == Kv(k, Iterable(e))
    requires SendableKey(k, key, false) && |list| <= MAX_LIST && SendableList(e, list, t == [])
    ensures Encode(Gbk(k, e), GBK(key, list)).Some?
    ensures Encode(Kv(k, Iterable(e)), GBK(key, list)) == Encode(Gbk(k, e), GBK(key, list))
    ensures Decode(Gbk(k, e), Encode(Gbk(k, e), GBK(key, list)).value + t) == Done(GBK(key, NormalList(e, list)), t)
    ensures Decode(Kv(k, Iterable(e)), Encode(Gbk(k, e), GBK(key, list)).value + t) ==
            Done(KV(key, Iter(NormalList(e, list))), t)
    decreases c, 0, 0
  {
    RoundTripIterable(e, list, t);
    var b := EncodeIterable(e, list).value;
    assert b + t != [] by { assert |b| >= 4; }
    RoundTripKey(k, key, b + t);
    var a := EncodeKey(k, key).value;
    GroupedEncodes(k, e, key, list, a, b);
    Associative(a, b, t);
    GbkDecodes(k, e, a + (b + t), key, b + t, NormalList(e, list), t);
    IterDecodes(e, b + t, NormalList(e, list), t);
    KvDecodes(k, Iterable(e), a + (b + t), key, b + t, Iter(NormalList(e, list)), t);
  }

  lemma {:induction false} IterDecodes(e: Coder, s: seq<Byte>, list: seq<Record>, t: seq<Byte>)
    requires DecodeIterable(e, s) == Done(list, t)
    ensures Decode(Iterable(e), s) == Done(Iter(list), t)
  {
  }

  lemma {:induction false} RoundTripIterable(e: Coder, list: seq<Record>, t: seq<Byte>)
    requires |list| <= MAX_LIST && SendableList(e, list, t == [])
    ensures EncodeIterable(e, list).Some?
    ensures DecodeIterable(e, EncodeIterable(e, list).value + t) == Done(NormalList(e, list), t)
    decreases e, 3, 0
  {
    RoundTripList(e, list, t);
    var b := EncodeList(e, list).value;
    Pow256Values();
    TakeNumberOfBigEndian(4, |list|, b + t);
    assert (BigEndian(4, |list|) + b) + t == BigEndian(4, |list|) + (b + t);
  }

  lemma {:induction false} RoundTripList(e: Coder, list: seq<Record>, t: seq<Byte>)
    requires SendableList(e, list, t == [])
    ensures EncodeList(e, list).Some?
    ensures DecodeMany(e, |list|, EncodeList(e, list).value + t) == Done(NormalList(e, list), t)
    decreases e, 2, |list|
  {
    if list == [] {
      assert [] + t == t;
    } else {
      RoundTripList(e, list[1..], t);
      var b := EncodeList(e, list[1..]).value;
      RoundTrip(e, list[0], b + t);
      var a := Encode(e, list[0]).value;
      assert (a + b) + t == a + (b + t);
    }
  }

  lemma {:induction false} RoundTripTuple(cs: seq<Coder>, vs: seq<Primitive>, t: seq<Byte>)
    requires SendableTuple(cs, vs, t == [])
    ensures EncodeTuple(cs, vs).Some?
    ensures DecodeTuple(cs, EncodeTuple(cs, vs).value + t) == Done(vs, t)
    decreases cs, 0, 0
  {
    if cs == [] {
      assert [] + t == t;
    } else {
      RoundTripTuple(cs[1..], vs[1..], t);
      var b := EncodeTuple(cs[1..], vs[1..]).value;
      RoundTrip(cs[0], Prim(vs[0]), b + t);
      NormalOfPrim(cs[0], Prim(vs[0]));
      var a := Encode(cs[0], Prim(vs[0])).value;
      assert (a + b) + t == a + (b + t);
      assert [vs[0]] + vs[1..] == vs;
    }
  }

  lemma EncodePrimitiveIsEncode(c: Coder, p: Primitive)
    ensures EncodePrimitive(c, p) == Encode(c, Prim(p))
  {
  }

  /** Keys are stored in canonical form, so they come back unchanged. */
  lemma {:induction false} RoundTripKey(k: Coder, key: Primitive, t: seq<Byte>)
    requires SendableKey(k, key, t == [])
    ensures EncodeKey(k, key).Some? && DecodeKey(k, EncodeKey(k, key).value + t) == Done(key, t)
    decreases k, 2, 0
  {
    if IsPrimitive(k) {
      EncodePrimitiveIsEncode(k, key);
      RoundTrip(k, Prim(key), t);
      NormalOfPrim(k, Prim(key));
    } else {
      var r :| Sendable(k, r, t == []) && Encode(k, r) == Some(key.bytes);
      RoundTrip(k, r, t);
      EncodeNormal(k, r);
    }
  }

  // ----- framing -----

  /** A record that may be followed by anything may also come last. */
  lemma {:induction false} SendableMonotone(c: Coder, r: Record, a: bool, b: bool)
    requires Sendable(c, r, a) && (a ==> b)
    ensures Sendable(c, r, b)
    decreases c, 1, 0
  {
    if c.Iterable? {
      SendableListMonotone(c.element, r.list, a, b);
    } else if c.Nullable? {
      if r != Prim(Unit) { SendableMonotone(c.inner, r, a, b); }
    } else if c.Tuple? {
      SendableTupleMonotone(c.components, r.values, a, b);
    } else if c.Kv? {
      if r.KV? {
        var empty := Encode(c.valueCoder, r.payload) == Some([]);
        SendableMonotone(c.valueCoder, r.payload, a, b);
        SendableKeyMonotone(c.keyCoder, r.key, a && empty, b && empty);
      } else {
        SendableMonotone(c.valueCoder, Iter(r.list), a, b);
      }
    } else if c.Gbk? {
      SendableListMonotone(c.element, r.list, a, b);
    }
  }

  lemma {:induction false} SendableKeyMonotone(k: Coder, key: Primitive, a: bool, b: bool)
    requires SendableKey(k, key, a) && (a ==> b)
    ensures SendableKey(k, key, b)
    decreases k, 2, 0
  {
    if IsPrimitive(k) {
      SendableMonotone(k, Prim(key), a, b);
    } else {
      var r :| Sendable(k, r, a) && Encode(k, r) == Some(key.bytes);
      SendableMonotone(k, r, a, b);
    }
  }

  lemma {:induction false} SendableListMonotone(e: Coder, list: seq<Record>, a: bool, b: bool)
    requires SendableList(e, list, a) && (a ==> b)
    ensures SendableList(e, list, b)
    decreases e, 2, |list|
  {
    if list == [] {
    } else {
      var empty := EncodeList(e, list[1..]) == Some([]);
      SendableMonotone(e, list[0], a && empty, b && empty);
      SendableListMonotone(e, list[1..], a, b);
    }
  }

  lemma {:induction false} SendableTupleMonotone(cs: seq<Coder>, vs: seq<Primitive>, a: bool, b: bool)
    requires SendableTuple(cs, vs, a) && (a ==> b)
    ensures SendableTuple(cs, vs, b)
    decreases cs, 0, 0
  {
    if cs == [] {
    } else {
      var empty := EncodeTuple(cs[1..], vs[1..]) == Some([]);
      SendableMonotone(cs[0], Prim(vs[0]), a && empty, b && empty);
      SendableTupleMonotone(cs[1..], vs[1..], a, b);
    }
  }

  /** For a coder that delimits itself, typing is all that sending needs. */
  lemma {:induction false} DelimitingSends(c: Coder, r: Record, last: bool)
    requires HasType(c, r) && Delimiting(c, last)
    ensures Sendable(c, r, last)
    decreases c, 1, 0
  {
    if c.Iterable? {
      DelimitingSendsList(c.element, r.list, last);
    } else if c.Nullable? {
      if r != Prim(Unit) { DelimitingSends(c.inner, r, last); }
    } else if c.Tuple? {
      DelimitingSendsTuple(c.components, r.values, last);
    } else if c.Kv? {
      if r.KV? {
        DelimitingSends(c.valueCoder, r.payload, last);
        DelimitingSendsKey(c.keyCoder, r.key, last && Encode(c.valueCoder, r.payload) == Some([]));
      } else {
        DelimitingSends(c.valueCoder, Iter(r.list), last);
        DelimitingSendsKey(c.keyCoder, r.key, false);
      }
    } else if c.Gbk? {
      DelimitingSendsList(c.element, r.list, last);
      DelimitingSendsKey(c.keyCoder, r.key, false);
    }
  }

  lemma {:induction false} DelimitingSendsKey(k: Coder, key: Primitive, last: bool)
    requires HasKeyType(k, key) && Delimiting(k, false)
    ensures SendableKey(k, key, last)
    decreases k, 2, 0
  {
    if IsPrimitive(k) {
      DelimitingSends(k, Prim(key), false);
    } else {
      var r :| HasType(k, r) && Encode(k, r) == Some(key.bytes);
      DelimitingSends(k, r, false);
    }
    SendableKeyMonotone(k, key, false, last);
  }

  lemma {:induction false} DelimitingSendsList(e: Coder, list: seq<Record>, last: bool)
    requires Delimiting(e, false) && forall i :: 0 <= i < |list| ==> HasType(e, list[i])
    ensures SendableList(e, list, last)
    decreases e, 2, |list|
  {
    if list == [] {
    } else {
      DelimitingSends(e, list[0], false);
      SendableMonotone(e, list[0], false, last && EncodeList(e, list[1..]) == Some([]));
      DelimitingSendsList(e, list[1..], last);
    }
  }

  lemma {:induction false} DelimitingSendsTuple(cs: seq<Coder>, vs: seq<Primitive>, last: bool)
    requires |cs| == |vs|
    requires forall i :: 0 <= i < |cs| ==> HasType(cs[i], Prim(vs[i])) && Delimiting(cs[i], last && i == |cs| - 1)
    ensures SendableTuple(cs, vs, last)
    decreases cs, 0, 0
  {
    if cs == [] {
    } else {
      var now := last && 0 == |cs| - 1;
      DelimitingSends(cs[0], Prim(vs[0]), now);
      SendableMonotone(cs[0], Prim(vs[0]), now, last && EncodeTuple(cs[1..], vs[1..]) == Some([]));
      DelimitingSendsTuple(cs[1..], vs[1..], last);
    }
  }

  /**
   The round trip for typed records: with any suffix when the coder delimits itself,
   and with the empty suffix when only its last field is an opaque Java value.
   */
  lemma TypedRoundTrip(c: Coder, r: Record, t: seq<Byte>)
    requires HasType(c, r) && Delimiting(c, t == [])
    ensures Encode(c, r).Some? && Decode(c, Encode(c, r).value + t) == Done(Normal(c, r), t)
  {
    DelimitingSends(c, r, t == []);
    RoundTrip(c, r, t);
  }

  // ----- every decode is canonical -----

  /** A value read from no bytes is written as no bytes. */
  lemma {:induction false} DecodeFromNothing(c: Coder)
    requires Decode(c, []).Done?
    ensures Decode(c, []).rest == [] && Encode(c, Decode(c, []).value) == Some([])
    decreases c, 1, 0
  {
    assert Decode(c, []).rest == [];
    AppendNothing();
    if c.Tuple? {
      DecodeTupleFromNothing(c.components);
    } else if c.Kv? {
      KvDecodeSplits(c.keyCoder, c.valueCoder, []);
      DecodeKeyFromNothing(c.keyCoder);
      DecodeFromNothing(c.valueCoder);
      var key, payload := DecodeKey(c.keyCoder, []).value, Decode(c.valueCoder, []).value;
      KvEncodes(c.keyCoder, c.valueCoder, key, payload, [], []);
    } else if c.Gbk? {
      GbkDecodeSplits(c.keyCoder, c.element, []);
      DecodeKeyFromNothing(c.keyCoder);
    }
  }

  lemma {:induction false} DecodeKeyFromNothing(k: Coder)
    requires DecodeKey(k, []).Done?
    ensures DecodeKey(k, []).rest == [] && EncodeKey(k, DecodeKey(k, []).value) == Some([])
    decreases k, 2, 0
  {
    DecodeFromNothing(k);
    EncodePrimitiveIsEncode(k, DecodeKey(k, []).value);
  }

  lemma {:induction false} DecodeTupleFromNothing(cs: seq<Coder>)
    requires DecodeTuple(cs, []).Done?
    ensures EncodeTuple(cs, DecodeTuple(cs, []).value) == Some([])
    decreases cs, 0, 0
  {
    if cs == [] {
    } else {
      AppendNothing();
      DecodeFromNothing(cs[0]);
      DecodeTupleFromNothing(cs[1..]);
      var v, vs := Decode(cs[0], []).value.value, DecodeTuple(cs[1..], []).value;
      assert DecodeTuple(cs, []).value == [v] + vs;
      assert ([v] + vs)[1..] == vs;
      assert EncodeTuple(cs[1..], vs) == Some([]);
    }
  }

  lemma {:induction false} DecodeManyFromNothing(e: Coder, n: nat)
    requires DecodeMany(e, n, []).Done?
    ensures EncodeList(e, DecodeMany(e, n, []).value) == Some([])
  {
    if n == 0 {
    } else {
      AppendNothing();
      DecodeFromNothing(e);
      DecodeManyFromNothing(e, n - 1);
      var r, rs := Decode(e, []).value, DecodeMany(e, n - 1, []).value;
      assert DecodeMany(e, n, []).value == [r] + rs;
      assert ([r] + rs)[1..] == rs;
      assert EncodeList(e, rs) == Some([]);
    }
  }

  predicate AllFit(list: seq<Record>) {
    forall i :: 0 <= i < |list| ==> ListsFit(list[i])
  }

  /**
   Whatever bytes were read, chunked lists and padded varints included, the record
   is already normal; it can be written again exactly when its lists fit the 32-bit
   count, and then it is framed so that it survives.
   */
  ghost predicate Canonical(c: Coder, r: Record, last: bool) {
    && Normal(c, r) == r
    && (Encode(c, r).Some? <==> ListsFit(r))
    && (ListsFit(r) ==> Sendable(c, r, last))
  }

  ghost predicate CanonicalList(e: Coder, list: seq<Record>, last: bool) {
    && NormalList(e, list) == list
    && (EncodeList(e, list).Some? <==> AllFit(list))
    && (AllFit(list) ==> SendableList(e, list, last))
  }

  lemma {:induction false} DecodeCanonical(c: Coder, s: seq<Byte>)
    requires Decode(c, s).Done?
    ensures Canonical(c, Decode(c, s).value, Decode(c, s).rest == [])
    decreases c, 1, 0
  {
    if c.Iterable? {
      DecodeIterableCanonical(c.element, s);
    } else if c.Nullable? {
      if s[0] == 1 {
        DecodeCanonical(c.inner, s[1..]);
        NormalOfPrim(c.inner, Decode(c, s).value);
      }
    } else if c.Tuple? {
      DecodeTupleCanonical(c.components, s);
    } else if c.Kv? {
      DecodeKvCanonical(c, c.keyCoder, c.valueCoder, s);
    } else if c.Gbk? {
      GbkDecodeSplits(c.keyCoder, c.element, s);
      DecodeKeyCanonical(c.keyCoder, s);
      var p := DecodeKey(c.keyCoder, s);
      DecodeIterableCanonical(c.element, p.rest);
      var q := DecodeIterable(c.element, p.rest);
      GbkCanonical(c.keyCoder, c.element, p.value, q.value, q.rest == []);
    } else {
      LeafCanonical(c, s);
    }
  }

  lemma LeafCanonical(c: Coder, s: seq<Byte>)
    requires IsLeaf(c) && Decode(c, s).Done?
    ensures Canonical(c, Decode(c, s).value, Decode(c, s).rest == [])
  {
  }

  lemma {:induction false} DecodeKvCanonical(c: Coder, k: Coder, v: Coder, s: seq<Byte>)
    requires c == Kv(k, v) && Decode(c, s).Done?
    ensures Canonical(c, Decode(c, s).value, Decode(c, s).rest == [])
    decreases c, 0, 0
  {
    KvDecodeSplits(k, v, s);
    DecodeKeyCanonical(k, s);
    var p := DecodeKey(k, s);
    DecodeCanonical(v, p.rest);
    var q := Decode(v, p.rest);
    if p.rest == [] {
      DecodeFromNothing(v);
    }
    KvCanonical(k, v, p.value, q.value, p.rest == [], q.rest == []);
  }

  lemma {:induction false} KvCanonical(
    k: Coder, v: Coder, key: Primitive, payload: Record, alone: bool, last: bool)
    requires SendableKey(k, key, alone) && EncodeKey(k, key).Some?
    requires Canonical(v, payload, last)
    requires alone ==> last && Encode(v, payload) == Some([])
    ensures Canonical(Kv(k, v), KV(key, payload), last)
  {
    SendableKeyMonotone(k, key, alone, last && Encode(v, payload) == Some([]));
  }

  lemma {:induction false} GbkCanonical(k: Coder, e: Coder, key: Primitive, list: seq<Record>, last: bool)
    requires SendableKey(k, key, false) && EncodeKey(k, key).Some? && CanonicalList(e, list, last)
    ensures Canonical(Gbk(k, e), GBK(key, list), last)
  {
    var c, r := Gbk(k, e), GBK(key, list);
    assert Normal(c, r) == r;
    assert EncodeIterable(e, list).Some? <==> |list| <= MAX_LIST && EncodeList(e, list).Some?;
    GbkEncodes(k, e, key, list);
    assert ListsFit(r) <==> |list| <= MAX_LIST && AllFit(list);
    assert ListsFit(r) ==> Sendable(c, r, last);
  }

  lemma {:induction false} DecodeKeyCanonical(k: Coder, s: seq<Byte>)
    requires DecodeKey(k, s).Done?
    ensures SendableKey(k, DecodeKey(k, s).value, DecodeKey(k, s).rest == [])
    ensures EncodeKey(k, DecodeKey(k, s).value).Some?
    decreases k, 2, 0
  {
    DecodeCanonical(k, s);
    EncodePrimitiveIsEncode(k, DecodeKey(k, s).value);
  }

  lemma {:induction false} DecodeTupleCanonical(cs: seq<Coder>, s: seq<Byte>)
    requires DecodeTuple(cs, s).Done?
    ensures EncodeTuple(cs, DecodeTuple(cs, s).value).Some?
    ensures SendableTuple(cs, DecodeTuple(cs, s).value, DecodeTuple(cs, s).rest == [])
    decreases cs, 0, 0
  {
    if cs == [] {
    } else {
      DecodeCanonical(cs[0], s);
      var r, s1 := Decode(cs[0], s).value, Decode(cs[0], s).rest;
      DecodeTupleCanonical(cs[1..], s1);
      var vs, rest := DecodeTuple(cs[1..], s1).value, DecodeTuple(cs[1..], s1).rest;
      assert DecodeTuple(cs, s).value[1..] == vs;
      if s1 == [] {
        DecodeTupleFromNothing(cs[1..]);
      }
      SendableMonotone(cs[0], r, s1 == [], rest == [] && EncodeTuple(cs[1..], vs) == Some([]));
    }
  }

  lemma {:induction false} DecodeManySplits(e: Coder, n: nat, s: seq<Byte>)
    requires n > 0 && DecodeMany(e, n, s).Done?
    ensures var p := Decode(e, s);
            && p.Done?
            && var q := DecodeMany(e, n - 1, p.rest);
            q.Done? && DecodeMany(e, n, s) == Done([p.value] + q.value, q.rest)
  {
  }

  lemma {:induction false} DecodeManyCanonical(e: Coder, n: nat, s: seq<Byte>)
    requires DecodeMany(e, n, s).Done?
    ensures |DecodeMany(e, n, s).value| == n
    ensures CanonicalList(e, DecodeMany(e, n, s).value, DecodeMany(e, n, s).rest == [])
    decreases e, 2, n
  {
    if n == 0 {
    } else {
      DecodeManySplits(e, n, s);
      var p := Decode(e, s);
      DecodeCanonical(e, s);
      DecodeManyCanonical(e, n - 1, p.rest);
      var q := DecodeMany(e, n - 1, p.rest);
      if p.rest == [] {
        DecodeManyFromNothing(e, n - 1);
        assert q.rest == [];
      }
      CanonicalCons(e, p.value, q.value, p.rest == [], q.rest == []);
    }
  }

  lemma {:induction false} CanonicalCons(e: Coder, r: Record, tail: seq<Record>, followed: bool, last: bool)
    requires Canonical(e, r, followed) && CanonicalList(e, tail, last)
    requires followed ==> last && EncodeList(e, tail) == Some([])
    ensures CanonicalList(e, [r] + tail, last)
  {
    var list := [r] + tail;
    assert list[1..] == tail;
    assert AllFit(list) <==> ListsFit(r) && AllFit(tail) by {
      assert forall i :: 0 <= i < |tail| ==> list[i + 1] == tail[i];
    }
    if AllFit(list) {
      SendableMonotone(e, r, followed, last && EncodeList(e, tail) == Some([]));
    }
  }

  lemma {:induction false} ListCons(e: Coder, r: Record, tail: seq<Record>)
    ensures EncodeList(e, [r] + tail) == Append(Encode(e, r), EncodeList(e, tail))
    ensures NormalList(e, [r] + tail) == [Normal(e, r)] + NormalList(e, tail)
  {
    assert ([r] + tail)[1..] == tail;
  }

  lemma {:induction false} ListConcat(e: Coder, xs: seq<Record>, ys: seq<Record>)
    ensures EncodeList(e, xs + ys) == Append(EncodeList(e, xs), EncodeList(e, ys))
    ensures NormalList(e, xs + ys) == NormalList(e, xs) + NormalList(e, ys)
    decreases |xs|
  {
    if xs == [] {
      assert xs + ys == ys;
      AppendToNothing(EncodeList(e, ys));
      assert NormalList(e, xs) + NormalList(e, ys) == NormalList(e, ys);
    } else {
      var tail := xs[1..] + ys;
      assert xs + ys == [xs[0]] + tail;
      ListConcat(e, xs[1..], ys);
      ListCons(e, xs[0], tail);
      AppendAssociative(Encode(e, xs[0]), EncodeList(e, xs[1..]), EncodeList(e, ys));
    }
  }

  lemma {:induction false} SendableConcat(e: Coder, xs: seq<Record>, ys: seq<Record>, last: bool)
    requires SendableList(e, xs, false) && SendableList(e, ys, last)
    ensures SendableList(e, xs + ys, last)
    decreases |xs|
  {
    if xs == [] {
      assert xs + ys == ys;
    } else {
      assert (xs + ys)[1..] == xs[1..] + ys;
      SendableConcat(e, xs[1..], ys, last);
      SendableMonotone(e, xs[0], false, last && EncodeList(e, xs[1..] + ys) == Some([]));
    }
  }

  lemma {:induction false} CanonicalConcat(e: Coder, xs: seq<Record>, ys: seq<Record>, last: bool)
    requires CanonicalList(e, xs, false) && CanonicalList(e, ys, last)
    ensures CanonicalList(e, xs + ys, last)
  {
    ListConcat(e, xs, ys);
    assert AllFit(xs + ys) <==> AllFit(xs) && AllFit(ys) by {
      assert forall i :: 0 <= i < |xs| ==> (xs + ys)[i] == xs[i];
      assert forall i :: 0 <= i < |ys| ==> (xs + ys)[|xs| + i] == ys[i];
    }
    if AllFit(xs + ys) {
      SendableConcat(e, xs, ys, last);
    }
  }

  lemma {:induction false} DecodeChunksCons(
    e: Coder, s: seq<Byte>, n: UInt64, s1: seq<Byte>, chunk: seq<Record>, s2: seq<Byte>, list: seq<Record>,
    t: seq<Byte>)
    requires n > 0 && Varint.Decode(s) == Done(n, s1)
    requires DecodeMany(e, n, s1) == Done(chunk, s2) && DecodeChunks(e, s2) == Done(list, t)
    ensures DecodeChunks(e, s) == Done(chunk + list, t)
  {
  }

  lemma {:induction false} DecodeChunksCanonical(e: Coder, s: seq<Byte>)
    requires DecodeChunks(e, s).Done?
    ensures CanonicalList(e, DecodeChunks(e, s).value, false)
    decreases e, 3, |s|
  {
    var n, s1 := Varint.Decode(s).value, Varint.Decode(s).rest;
    if n == 0 {
    } else {
      DecodeManyCanonical(e, n, s1);
      var chunk, s2 := DecodeMany(e, n, s1).value, DecodeMany(e, n, s1).rest;
      DecodeChunksCanonical(e, s2);
      CanonicalConcat(e, chunk, DecodeChunks(e, s2).value, false);
    }
  }

  lemma {:induction false} DecodeIterableCanonical(e: Coder, s: seq<Byte>)
    requires DecodeIterable(e, s).Done?
    ensures CanonicalList(e, DecodeIterable(e, s).value, DecodeIterable(e, s).rest == [])
    decreases e, 4, 0
  {
    var count, s1 := TakeNumber(4, s).value, TakeNumber(4, s).rest;
    if count < TWO_31 {
      DecodeManyCanonical(e, count, s1);
    } else {
      DecodeChunksCanonical(e, s1);
      var list := DecodeIterable(e, s).value;
      if AllFit(list) {
        SendableListMonotone(e, list, false, DecodeIterable(e, s).rest == []);
      }
    }
  }
}
