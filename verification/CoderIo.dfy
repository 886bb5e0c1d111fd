/** The coders as the runner runs them: recursion over the coder tree, appending to or consuming a buffer. */
module CoderIo {
  import opened Bytes
  import opened Utf8
  import opened Coders
  import CoderLaws
  import Varint

  /** A write that either panicked or appended exactly the prescribed bytes. */
  predicate Wrote(ok: bool, before: seq<Byte>, after: seq<Byte>, out: Option<seq<Byte>>) {
    match out
    case None => !ok
    case Some(b) => ok && after == before + b
  }

  // ----- encoding -----

  method PutRecord(c: Coder, r: Record, buf: WriteBuf) returns (ok: bool)
    modifies buf
    ensures Wrote(ok, old(buf.bytes), buf.bytes, Encode(c, r))
    decreases c, 2
  {
    if c.Iterable? && r.Iter? {
      ok := PutIterable(c.element, r.list, buf);
    } else if c.Tuple? && r.Tup? {
      ok := PutTuple(c.components, r.values, buf);
    } else if c.Nullable? {
      ok := PutNullable(c.inner, r, buf);
    } else if c.Kv? && r.KV? {
      ok := PutKey(c.keyCoder, r.key, buf);
      if ok {
        ghost var start, a := old(buf.bytes), EncodeKey(c.keyCoder, r.key).value;
        ok := PutRecord(c.valueCoder, r.payload, buf);
        assert ok ==> buf.bytes == start + (a + Encode(c.valueCoder, r.payload).value);
      }
    } else if c.Kv? && r.GBK? {
      if !c.valueCoder.Iterable? {
        return false;
      }
      ok := PutGrouped(c, c.keyCoder, c.valueCoder.element, r.key, r.list, buf);
    } else if c.Gbk? && r.GBK? {
      ok := PutGrouped(c, c.keyCoder, c.element, r.key, r.list, buf);
    } else if r.Prim? {
      ok := PutPrimitive(c, r.value, buf);
    } else {
      ok := false;
    }
  }

  method PutGrouped(
    ghost parent: Coder, k: Coder, e: Coder, key: Primitive, list: seq<Record>, buf: WriteBuf) returns (ok: bool)
    requires k < parent && e < parent
    modifies buf
    ensures Wrote(ok, old(buf.bytes), buf.bytes, Append(EncodeKey(k, key), EncodeIterable(e, list)))
    decreases parent, 1
  {
    ok := PutKey(k, key, buf);
    if ok {
      ghost var start, a := old(buf.bytes), EncodeKey(k, key).value;
      ok := PutIterable(e, list, buf);
      assert ok ==> buf.bytes == start + (a + EncodeIterable(e, list).value);
    }
  }

  method PutPrimitive(c: Coder, p: Primitive, buf: WriteBuf) returns (ok: bool)
    modifies buf
    ensures Wrote(ok, old(buf.bytes), buf.bytes, EncodePrimitive(c, p))
    decreases c, 1
  {
    ok := true;
    if c.Nullable? {
      ok := PutNullable(c.inner, Prim(p), buf);
    } else if c.StringUtf8? && p.Str? {
      Varint.PutDelimited(p.utf8, buf);
    } else if (c.BytesCoder? || c.Pickle? || c.LengthPrefix?) && p.Raw? {
      Varint.PutDelimited(p.bytes, buf);
    } else if c.JavaOpaque? && p.Raw? {
      buf.PutSlice(p.bytes);
    } else if c.VarInt? && p.Int64? {
      Varint.PutSigned(p.i, buf);
    } else if c.VarInt32? && p.Int64? {
      Varint.PutVarint(p.i % TWO_32, buf);
    } else if c.Bool? && p.Boolean? {
      buf.PutByte(if p.b then 1 else 0);
    } else if c.Double? && p.Float64? {
      buf.PutSlice(BigEndian(8, p.bits));
    } else if c.Void? && p.Unit? {
      assert buf.bytes == buf.bytes + [];
    } else {
      ok := false;
    }
  }

  method PutNullable(inner: Coder, r: Record, buf: WriteBuf) returns (ok: bool)
    modifies buf
    ensures Wrote(ok, old(buf.bytes), buf.bytes, EncodeNullable(inner, r))
    decreases inner, 3
  {
    if r == Prim(Unit) {
      buf.PutByte(0);
      ok := true;
    } else {
      ghost var start := buf.bytes;
      buf.PutByte(1);
      ok := PutRecord(inner, r, buf);
      assert ok ==> buf.bytes == start + ([1] + Encode(inner, r).value);
    }
  }

  method PutIterable(e: Coder, list: seq<Record>, buf: WriteBuf) returns (ok: bool)
    modifies buf
    ensures Wrote(ok, old(buf.bytes), buf.bytes, EncodeIterable(e, list))
    decreases e, 4
  {
    if |list| > MAX_LIST {
      return false;
    }
    ghost var before, count := buf.bytes, BigEndian(4, |list|);
    buf.PutSlice(BigEndian(4, |list|));
    ok := PutList(e, list, buf);
    if ok {
      CoderLaws.Associative(before, count, EncodeList(e, list).value);
    }
  }

  method PutList(e: Coder, list: seq<Record>, buf: WriteBuf) returns (ok: bool)
    modifies buf
    ensures Wrote(ok, old(buf.bytes), buf.bytes, EncodeList(e, list))
    decreases e, 3
  {
    ghost var start, done := buf.bytes, [];
    CoderLaws.AppendToNothing(EncodeList(e, list));
    assert list[0..] == list;
    var i := 0;
    while i < |list|
      invariant 0 <= i <= |list|
      invariant buf.bytes == start + done
      invariant EncodeList(e, list) == Append(Some(done), EncodeList(e, list[i..]))
    {
      ok := PutRecord(e, list[i], buf);
      assert list[i..][1..] == list[i + 1..];
      if !ok {
        return;
      }
      ghost var b := Encode(e, list[i]).value;
      CoderLaws.AppendAssociative(Some(done), Some(b), EncodeList(e, list[i + 1..]));
      done := done + b;
      i := i + 1;
    }
    assert EncodeList(e, list) == Some(done) by { assert done + [] == done; }
    ok := true;
  }

  method PutTuple(cs: seq<Coder>, vs: seq<Primitive>, buf: WriteBuf) returns (ok: bool)
    modifies buf
    ensures Wrote(ok, old(buf.bytes), buf.bytes, EncodeTuple(cs, vs))
    decreases cs, 0
  {
    if |vs| != |cs| {
      return false;
    }
    ghost var start, done := buf.bytes, [];
    CoderLaws.AppendToNothing(EncodeTuple(cs, vs));
    assert cs[0..] == cs && vs[0..] == vs;
    var i := 0;
    while i < |cs|
      invariant 0 <= i <= |cs|
      invariant buf.bytes == start + done
      invariant EncodeTuple(cs, vs) == Append(Some(done), EncodeTuple(cs[i..], vs[i..]))
    {
      ok := PutRecord(cs[i], Prim(vs[i]), buf);
      assert cs[i..][1..] == cs[i + 1..] && vs[i..][1..] == vs[i + 1..];
      if !ok {
        return;
      }
      ghost var b := Encode(cs[i], Prim(vs[i])).value;
      ghost var tail := EncodeTuple(cs[i + 1..], vs[i + 1..]);
      if tail.Some? {
        CoderLaws.Associative(done, b, tail.value);
      }
      done := done + b;
      i := i + 1;
    }
    assert EncodeTuple(cs, vs) == Some(done) by { assert done + [] == done; }
    ok := true;
  }

  method PutKey(k: Coder, key: Primitive, buf: WriteBuf) returns (ok: bool)
    modifies buf
    ensures Wrote(ok, old(buf.bytes), buf.bytes, EncodeKey(k, key))
    decreases k, 3
  {
    if IsPrimitive(k) {
      ok := PutPrimitive(k, key, buf);
    } else if key.Raw? {
      buf.PutSlice(key.bytes);
      ok := true;
    } else {
      ok := false;
    }
  }

  // ----- decoding -----

  method GetRecord(c: Coder, buf: ReadBuf) returns (r: Result<Record>)
    modifies buf
    ensures Agrees(r, buf.rest, Decode(c, old(buf.rest)))
    decreases c, 0
  {
    if c.Iterable? {
      var list :- GetIterable(c.element, buf);
      r := Ok(Iter(list));
    } else if c.Tuple? {
      var vs :- GetTuple(c.components, buf);
      r := Ok(Tup(vs));
    } else if c.Nullable? {
      var tag :- buf.GetByte();
      if tag == 0 {
        r := Ok(Prim(Unit));
      } else if tag == 1 {
        r := GetRecord(c.inner, buf);
      } else {
        r := Err(Error);
      }
    } else if c.Kv? {
      var key :- GetKey(c.keyCoder, buf);
      var payload :- GetRecord(c.valueCoder, buf);
      r := Ok(KV(key, payload));
    } else if c.Gbk? {
      var key :- GetKey(c.keyCoder, buf);
      var list :- GetIterable(c.element, buf);
      r := Ok(GBK(key, list));
    } else {
      var p :- GetLeaf(c, buf);
      r := Ok(Prim(p));
    }
  }

  method GetLeaf(c: Coder, buf: ReadBuf) returns (r: Result<Primitive>)
    requires CoderLaws.IsLeaf(c)
    modifies buf
    ensures Agrees(r, buf.rest, DecodeLeaf(c, old(buf.rest)))
  {
    if c.JavaOpaque? {
      r := Ok(Raw(buf.rest));
      buf.rest := [];
    } else if c.VarInt? {
      var i :- Varint.GetSigned(buf);
      r := Ok(Int64(i));
    } else if c.VarInt32? {
      var raw :- Varint.GetVarint(buf);
      if raw >= TWO_32 {
        return Err(Error);
      }
      r := Ok(Int64(if raw < TWO_31 then raw else raw - TWO_32));
    } else if c.Bool? {
      var b :- buf.GetByte();
      r := Ok(Boolean(b != 0));
    } else if c.Double? {
      if |buf.rest| < 8 {
        return Err(Error);
      }
      r := Ok(DecodeDouble(buf.rest).value);
      buf.rest := buf.rest[8..];
    } else if c.Void? {
      r := Ok(Unit);
    } else {
      var b :- Varint.GetDelimited(buf);
      if c.StringUtf8? && !ValidUtf8(b) {
        return Err(Error);
      }
      r := Ok(if c.StringUtf8? then Str(b) else Raw(b));
    }
  }

  method GetKey(k: Coder, buf: ReadBuf) returns (r: Result<Primitive>)
    modifies buf
    ensures Agrees(r, buf.rest, DecodeKey(k, old(buf.rest)))
    decreases k, 1
  {
    var record :- GetRecord(k, buf);
    if IsPrimitive(k) {
      return if record.Prim? then Ok(record.value) else Err(Error);
    }
    var raw := new WriteBuf();
    var ok := PutRecord(k, record, raw);
    assert ok ==> [] + Encode(k, record).value == Encode(k, record).value;
    r := if ok then Ok(Raw(raw.bytes)) else Err(Panic);
  }

  method GetTuple(cs: seq<Coder>, buf: ReadBuf) returns (r: Result<seq<Primitive>>)
    modifies buf
    ensures Agrees(r, buf.rest, DecodeTuple(cs, old(buf.rest)))
    decreases cs, 0
  {
    var values := [];
    ghost var start := buf.rest;
    PrependNone(DecodeTuple(cs, start));
    assert cs[0..] == cs;
    var i := 0;
    while i < |cs|
      invariant 0 <= i <= |cs|
      invariant DecodeTuple(cs, start) == Prepend(values, DecodeTuple(cs[i..], buf.rest))
    {
      assert cs[i..][1..] == cs[i + 1..];
      var x :- GetRecord(cs[i], buf);
      if !x.Prim? {
        return Err(Error);
      }
      PrependAppend(values, [x.value], DecodeTuple(cs[i + 1..], buf.rest));
      values := values + [x.value];
      i := i + 1;
    }
    assert values + [] == values;
    r := Ok(values);
  }

  method GetIterable(e: Coder, buf: ReadBuf) returns (r: Result<seq<Record>>)
    modifies buf
    ensures Agrees(r, buf.rest, DecodeIterable(e, old(buf.rest)))
    decreases e, 3
  {
    var count :- buf.GetNumber(4);
    if count < TWO_31 {
      r := GetMany(e, count, buf);
      return;
    }
    if count != TWO_32 - 1 {
      return Err(Panic);
    }
    var values := [];
    ghost var start := buf.rest;
    PrependNone(DecodeChunks(e, start));
    while true
      invariant DecodeChunks(e, start) == Prepend(values, DecodeChunks(e, buf.rest))
      decreases |buf.rest|
    {
      var n :- Varint.GetVarint(buf);
      if n == 0 {
        break;
      }
      var chunk :- GetMany(e, n, buf);
      PrependAppend(values, chunk, DecodeChunks(e, buf.rest));
      values := values + chunk;
    }
    assert values + [] == values;
    r := Ok(values);
  }

  method GetMany(e: Coder, n: nat, buf: ReadBuf) returns (r: Result<seq<Record>>)
    modifies buf
    ensures Agrees(r, buf.rest, DecodeMany(e, n, old(buf.rest)))
    decreases e, 2
  {
    var values := [];
    ghost var start := buf.rest;
    PrependNone(DecodeMany(e, n, start));
    var i := 0;
    while i < n
      invariant 0 <= i <= n
      invariant DecodeMany(e, n, start) == Prepend(values, DecodeMany(e, n - i, buf.rest))
    {
      ManyStep(values, e, n - i, buf.rest);
      var x :- GetRecord(e, buf);
      values := values + [x];
      i := i + 1;
    }
    assert values + [] == values;
    r := Ok(values);
  }

  lemma {:induction false} ManyStep(values: seq<Record>, e: Coder, n: nat, s: seq<Byte>)
    requires n > 0
    ensures var p := Decode(e, s);
            Prepend(values, DecodeMany(e, n, s)) ==
            if p.Failed? then Failed(p.why) else Prepend(values + [p.value], DecodeMany(e, n - 1, p.rest))
  {
    var p := Decode(e, s);
    if p.Done? {
      PrependAppend(values, [p.value], DecodeMany(e, n - 1, p.rest));
    }
  }

  /** `decode_element`. */
  method GetElement(c: Coder, buf: ReadBuf) returns (r: Result<Record>)
    modifies buf
    ensures Agrees(r, buf.rest, DecodeElement(c, old(buf.rest)))
    decreases c
  {
    if c.StringUtf8? {
      var bytes := buf.rest;
      buf.rest := [];
      r := if ValidUtf8(bytes) then Ok(Prim(Str(bytes))) else Err(Error);
    } else if c.BytesCoder? {
      r := Ok(Prim(Raw(buf.rest)));
      buf.rest := [];
    } else if c.Kv? {
      var key :- GetKey(c.keyCoder, buf);
      var payload :- GetElement(c.valueCoder, buf);
      r := Ok(KV(key, payload));
    } else if c.Gbk? {
      var key :- GetKey(c.keyCoder, buf);
      var list :- GetIterable(c.element, buf);
      r := Ok(GBK(key, list));
    } else {
      r := GetRecord(c, buf);
    }
  }

  // ----- accumulators -----

  lemma PrependNone<T>(p: Parse<seq<T>>)
    ensures Prepend([], p) == p
  {
    if p.Done? {
      assert [] + p.value == p.value;
    }
  }

  lemma PrependAppend<T>(xs: seq<T>, ys: seq<T>, p: Parse<seq<T>>)
    ensures Prepend(xs, Prepend(ys, p)) == Prepend(xs + ys, p)
  {
    if p.Done? {
      assert xs + (ys + p.value) == (xs + ys) + p.value;
    }
  }
}
