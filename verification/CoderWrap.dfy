/** Wrapping a pickled leaf in a length prefix does not change a byte of what the runner reads or writes. */
module CoderWrap {
  import opened Bytes
  import opened Coders
  import opened CoderGraph
  import Varint

  lemma {:induction false} WrapIsPrimitive(c: Coder)
    ensures IsPrimitive(WrapPickles(c)) == IsPrimitive(c)
  {
    if !c.Nullable? {
    } else {
      WrapIsPrimitive(c.inner);
    }
  }

  lemma {:induction false} WrapEncodes(c: Coder, r: Record)
    ensures Encode(WrapPickles(c), r) == Encode(c, r)
    decreases c, 1, 0
  {
    if c.Iterable? {
      if r.Iter? { WrapEncodesList(c.element, r.list); }
    } else if c.Nullable? {
      WrapEncodes(c.inner, r);
    } else if c.Tuple? {
      if r.Tup? { WrapEncodesTuple(c.components, r.values); }
    } else if c.Kv? {
      if r.KV? {
        WrapEncodesKv(c.keyCoder, c.valueCoder, r.key, r.payload);
      } else if r.GBK? {
        WrapEncodesKvOfGroup(c.keyCoder, c.valueCoder, r.key, r.list);
      }
    } else if c.Gbk? {
      if r.GBK? { WrapEncodesGrouped(c.keyCoder, c.element, r.key, r.list); }
    }
  }

  lemma {:induction false} WrapEncodesKv(k: Coder, v: Coder, key: Primitive, payload: Record)
    ensures Encode(Kv(WrapPickles(k), WrapPickles(v)), KV(key, payload)) == Encode(Kv(k, v), KV(key, payload))
    decreases Kv(k, v), 0, 0
  {
    WrapEncodesKey(k, key);
    WrapEncodes(v, payload);
    KvEncodesAlike(k, v, WrapPickles(k), WrapPickles(v), key, payload);
  }

  lemma {:induction false} KvEncodesAlike(k: Coder, v: Coder, k2: Coder, v2: Coder, key: Primitive, payload: Record)
    requires EncodeKey(k2, key) == EncodeKey(k, key) && Encode(v2, payload) == Encode(v, payload)
    ensures Encode(Kv(k2, v2), KV(key, payload)) == Encode(Kv(k, v), KV(key, payload))
  {
  }

  lemma {:induction false} WrapEncodesGrouped(k: Coder, e: Coder, key: Primitive, list: seq<Record>)
    ensures Append(EncodeKey(WrapPickles(k), key), EncodeIterable(WrapPickles(e), list))
            == Append(EncodeKey(k, key), EncodeIterable(e, list))
    decreases Gbk(k, e), 0, 0
  {
    WrapEncodesKey(k, key);
    WrapEncodesList(e, list);
  }

  lemma {:induction false} WrapEncodesKvOfGroup(k: Coder, v: Coder, key: Primitive, list: seq<Record>)
    ensures Encode(Kv(WrapPickles(k), WrapPickles(v)), GBK(key, list)) == Encode(Kv(k, v), GBK(key, list))
    decreases Kv(k, v), 0, 0
  {
    if v.Iterable? {
      WrapEncodesKey(k, key);
      WrapEncodesList(v.element, list);
    } else {
      assert !WrapPickles(v).Iterable?;
    }
  }

  lemma {:induction false} WrapEncodesKey(k: Coder, key: Primitive)
    ensures EncodeKey(WrapPickles(k), key) == EncodeKey(k, key)
    decreases k, 2, 0
  {
    WrapIsPrimitive(k);
    WrapEncodes(k, Prim(key));
  }

  lemma {:induction false} WrapEncodesList(e: Coder, list: seq<Record>)
    ensures EncodeList(WrapPickles(e), list) == EncodeList(e, list)
    decreases e, 2, |list|
  {
    if list == [] {
    } else {
      WrapEncodes(e, list[0]);
      WrapEncodesList(e, list[1..]);
    }
  }

  lemma {:induction false} WrapEncodesTuple(cs: seq<Coder>, vs: seq<Primitive>)
    ensures EncodeTuple(WrapAll(cs), vs) == EncodeTuple(cs, vs)
    decreases cs, 0, 0
  {
    if cs == [] || |cs| != |vs| {
    } else {
      WrapEncodes(cs[0], Prim(vs[0]));
      WrapEncodesTuple(cs[1..], vs[1..]);
      assert WrapAll(cs)[1..] == WrapAll(cs[1..]);
    }
  }

  lemma {:induction false} WrapDecodes(c: Coder, s: seq<Byte>)
    ensures Decode(WrapPickles(c), s) == Decode(c, s)
    decreases c, 1, 0
  {
    if c.Iterable? {
      WrapDecodesIterable(c.element, s);
    } else if c.Nullable? {
      if s != [] && s[0] == 1 { WrapDecodes(c.inner, s[1..]); }
    } else if c.Tuple? {
      WrapDecodesTuple(c.components, s);
    } else if c.Kv? {
      WrapDecodesKv(c.keyCoder, c.valueCoder, s);
    } else if c.Gbk? {
      WrapDecodesGbk(c.keyCoder, c.element, s);
    }
  }

  lemma {:induction false} WrapDecodesKv(k: Coder, v: Coder, s: seq<Byte>)
    ensures Decode(Kv(WrapPickles(k), WrapPickles(v)), s) == Decode(Kv(k, v), s)
    decreases Kv(k, v), 0, 0
  {
    WrapDecodesKey(k, s);
    var p := DecodeKey(k, s);
    if p.Done? {
      WrapDecodes(v, p.rest);
    }
    KvDecodesAlike(k, v, WrapPickles(k), WrapPickles(v), s);
  }

  lemma {:induction false} KvDecodesAlike(k: Coder, v: Coder, k2: Coder, v2: Coder, s: seq<Byte>)
    requires DecodeKey(k2, s) == DecodeKey(k, s)
    requires DecodeKey(k, s).Done? ==> Decode(v2, DecodeKey(k, s).rest) == Decode(v, DecodeKey(k, s).rest)
    ensures Decode(Kv(k2, v2), s) == Decode(Kv(k, v), s)
  {
  }

  lemma {:induction false} WrapDecodesGbk(k: Coder, e: Coder, s: seq<Byte>)
    ensures Decode(Gbk(WrapPickles(k), WrapPickles(e)), s) == Decode(Gbk(k, e), s)
    decreases Gbk(k, e), 0, 0
  {
    WrapDecodesKey(k, s);
    var p := DecodeKey(k, s);
    if p.Done? {
      WrapDecodesIterable(e, p.rest);
    }
    GbkDecodesAlike(k, e, WrapPickles(k), WrapPickles(e), s);
  }

  lemma {:induction false} GbkDecodesAlike(k: Coder, e: Coder, k2: Coder, e2: Coder, s: seq<Byte>)
    requires DecodeKey(k2, s) == DecodeKey(k, s)
    requires DecodeKey(k, s).Done? ==>
               DecodeIterable(e2, DecodeKey(k, s).rest) == DecodeIterable(e, DecodeKey(k, s).rest)
    ensures Decode(Gbk(k2, e2), s) == Decode(Gbk(k, e), s)
  {
  }

  lemma {:induction false} WrapDecodesKey(k: Coder, s: seq<Byte>)
    ensures DecodeKey(WrapPickles(k), s) == DecodeKey(k, s)
    decreases k, 2, 0
  {
    WrapIsPrimitive(k);
    WrapDecodes(k, s);
    if Decode(k, s).Done? {
      WrapEncodes(k, Decode(k, s).value);
    }
  }

  lemma {:induction false} WrapDecodesTuple(cs: seq<Coder>, s: seq<Byte>)
    ensures DecodeTuple(WrapAll(cs), s) == DecodeTuple(cs, s)
    decreases cs, 0, 0
  {
    if cs == [] {
    } else {
      WrapDecodes(cs[0], s);
      assert WrapAll(cs)[1..] == WrapAll(cs[1..]);
      if Decode(cs[0], s).Done? {
        WrapDecodesTuple(cs[1..], Decode(cs[0], s).rest);
      }
    }
  }

  lemma {:induction false} WrapDecodesMany(e: Coder, n: nat, s: seq<Byte>)
    ensures DecodeMany(WrapPickles(e), n, s) == DecodeMany(e, n, s)
    decreases e, 2, n
  {
    if n == 0 {
    } else {
      WrapDecodes(e, s);
      if Decode(e, s).Done? {
        WrapDecodesMany(e, n - 1, Decode(e, s).rest);
      }
    }
  }

  lemma {:induction false} WrapDecodesChunks(e: Coder, s: seq<Byte>)
    ensures DecodeChunks(WrapPickles(e), s) == DecodeChunks(e, s)
    decreases e, 3, |s|
  {
    var n := Varint.Decode(s);
    if n.Failed? || n.value == 0 {
    } else {
      WrapDecodesMany(e, n.value, n.rest);
      if DecodeMany(e, n.value, n.rest).Done? {
        WrapDecodesChunks(e, DecodeMany(e, n.value, n.rest).rest);
      }
    }
  }

  lemma {:induction false} WrapDecodesIterable(e: Coder, s: seq<Byte>)
    ensures DecodeIterable(WrapPickles(e), s) == DecodeIterable(e, s)
    decreases e, 4, 0
  {
    if |s| >= 4 {
      if TakeNumber(4, s).value < TWO_31 {
        WrapDecodesMany(e, TakeNumber(4, s).value, s[4..]);
      } else {
        WrapDecodesChunks(e, s[4..]);
      }
    }
  }

  /** The boundary coder after the rewrite handles every record and every byte string as before. */
  lemma RewriteKeepsBytes(g: Graph, id: Id, c: Coder, d: Coder, r: Record, s: seq<Byte>)
    requires NoCollision(g) && AllExplicit(g) && Explicit(g, id) && (id in Leaves(g) || Lp(id) !in g)
    requires Resolves(g, id, c) && Resolves(Rewrite(g), BoundaryId(Rewrite(g), id), d)
    ensures Encode(d, r) == Encode(c, r) && Decode(d, s) == Decode(c, s)
  {
    BoundaryMeaning(g, id, c);
    ResolvesOnce(Rewrite(g), BoundaryId(Rewrite(g), id), d, WrapPickles(c));
    WrapEncodes(c, r);
    WrapDecodes(c, s);
  }
}
