/** Schema resolution for rows: nested field types and the order fields are encoded in. */
module Schemas {
  import opened Bytes

  // ----- proto messages -----

  datatype FieldType = FieldType(nullable: bool, info: Option<TypeInfo>)

  datatype TypeInfo =
    | AtomicType(code: Int32)
    | ArrayType(element: Option<FieldType>)
    | IterableType(element: Option<FieldType>)
    | MapType(key: Option<FieldType>, val: Option<FieldType>)
    | RowType(schema: Option<Schema>)
    | LogicalType(urn: string, representation: Option<FieldType>)

  datatype Field = Field(name: string, fieldType: Option<FieldType>, position: Int32)

  datatype Schema = Schema(id: string, fields: seq<Field>, positionsSet: bool)

  // ----- resolved schemas -----

  datatype Atom =
    | ByteAtom | Int16Atom | Int32Atom | Int64Atom | FloatAtom | DoubleAtom | StringAtom | BooleanAtom | BytesAtom

  datatype Kind =
    | Atomic(atom: Atom)
    | ArrayOf(element: BeamType)
    | IterableOf(element: BeamType)
    | MapOf(key: BeamType, val: BeamType)
    | RowOf(schema: BeamSchema)
    | LogicalOf(urn: string, representation: BeamType)

  datatype BeamType = BeamType(nullable: bool, kind: Kind)

  datatype BeamField = BeamField(name: string, fieldType: BeamType, position: Int32)

  datatype BeamSchema = BeamSchema(id: string, fields: seq<BeamField>, encodeOrder: seq<nat>)

  // ----- encoding order -----

  /** Stable insertion of field `i` behind every field whose position is not greater. */
  function Insert(order: seq<nat>, positions: seq<int>, i: nat): seq<nat>
    requires i < |positions| && forall k :: 0 <= k < |order| ==> order[k] < |positions|
  {
    if order == [] || positions[order[|order| - 1]] <= positions[i] then order + [i]
    else Insert(order[..|order| - 1], positions, i) + [order[|order| - 1]]
  }

  /** Fields come by position, ties in field order. */
  predicate Precedes(positions: seq<int>, i: nat, j: nat)
    requires i < |positions| && j < |positions|
  {
    positions[i] < positions[j] || (positions[i] == positions[j] && i < j)
  }

  /** Every index below `n` occurs, and each precedes the next: a sorted, stable permutation. */
  predicate IsOrder(order: seq<nat>, positions: seq<int>, n: nat)
    requires n <= |positions|
  {
    && |order| == n
    && (forall k :: 0 <= k < n ==> order[k] < n)
    && (forall k: nat :: k < n ==> k in order)
    && (forall j, k :: 0 <= j < k < n ==> Precedes(positions, order[j], order[k]))
  }

  /** `sort_by_key` over the first `n` indexed positions. */
  function SortedOrder(positions: seq<int>, n: nat): (order: seq<nat>)
    requires n <= |positions|
    ensures |order| == n && forall k :: 0 <= k < n ==> order[k] < n
  {
    if n == 0 then []
    else
      var shorter := SortedOrder(positions, n - 1);
      InsertSpec(shorter, positions, n - 1);
      Insert(shorter, positions, n - 1)
  }

  lemma {:induction false} InsertSpec(order: seq<nat>, positions: seq<int>, i: nat)
    requires i < |positions| && forall k :: 0 <= k < |order| ==> order[k] < i
    ensures |Insert(order, positions, i)| == |order| + 1
    ensures forall k :: k in Insert(order, positions, i) <==> k in order || k == i
    ensures forall k :: 0 <= k < |order| + 1 ==> Insert(order, positions, i)[k] <= i
    decreases |order|
  {
    if order == [] || positions[order[|order| - 1]] <= positions[i] {
    } else {
      var init := order[..|order| - 1];
      InsertSpec(init, positions, i);
      assert order == init + [order[|order| - 1]];
    }
  }

  predicate Ascending(order: seq<nat>, positions: seq<int>)
    requires forall k :: 0 <= k < |order| ==> order[k] < |positions|
  {
    forall j, k :: 0 <= j < k < |order| ==> Precedes(positions, order[j], order[k])
  }

  lemma {:induction false} InsertAscending(order: seq<nat>, positions: seq<int>, i: nat)
    requires i < |positions| && (forall k :: 0 <= k < |order| ==> order[k] < i) && Ascending(order, positions)
    ensures (forall k :: 0 <= k < |Insert(order, positions, i)| ==> Insert(order, positions, i)[k] < |positions|)
    ensures Ascending(Insert(order, positions, i), positions)
    decreases |order|
  {
    InsertSpec(order, positions, i);
    if order == [] || positions[order[|order| - 1]] <= positions[i] {
    } else {
      var init, last := order[..|order| - 1], order[|order| - 1];
      InsertSpec(init, positions, i);
      InsertAscending(init, positions, i);
      var out := Insert(init, positions, i);
      forall k | 0 <= k < |out|
        ensures Precedes(positions, out[k], last)
      {
        assert out[k] in init || out[k] == i;
      }
    }
  }

  lemma {:induction false} SortedOrderIsOrder(positions: seq<int>, n: nat)
    requires n <= |positions|
    ensures IsOrder(SortedOrder(positions, n), positions, n)
  {
    if n == 0 {
    } else {
      SortedOrderIsOrder(positions, n - 1);
      var shorter := SortedOrder(positions, n - 1);
      InsertSpec(shorter, positions, n - 1);
      InsertAscending(shorter, positions, n - 1);
    }
  }

  /** The order is determined by the positions alone. */
  lemma {:induction false} OrderUnique(a: seq<nat>, b: seq<nat>, positions: seq<int>, n: nat)
    requires n <= |positions| && IsOrder(a, positions, n) && IsOrder(b, positions, n)
    ensures a == b
  {
    var k := 0;
    while k < n
      invariant 0 <= k <= n && a[..k] == b[..k]
    {
      var x := IndexOf(a, b[k]);
      var y := IndexOf(b, a[k]);
      assert forall j :: 0 <= j < k ==> a[j] == b[j] by {
        assert forall j :: 0 <= j < k ==> a[j] == a[..k][j] && b[j] == b[..k][j];
      }
      assert forall j :: 0 <= j < k ==> Precedes(positions, a[j], a[k]) && Precedes(positions, b[j], b[k]);
      assert x >= k && y >= k;
      assert a[k] == b[k];
      assert a[..k + 1] == a[..k] + [a[k]] && b[..k + 1] == b[..k] + [b[k]];
      k := k + 1;
    }
    assert a == a[..n] && b == b[..n];
  }

  lemma IndexOf(s: seq<nat>, x: nat) returns (i: nat)
    requires x in s
    ensures i < |s| && s[i] == x
  {
    i :| i < |s| && s[i] == x;
  }

  /** Positions that are a permutation of 0..n-1 are inverted: the field at position p is encoded p-th. */
  lemma {:induction false} OrderInverts(order: seq<nat>, positions: seq<int>, i: nat)
    requires IsOrder(order, positions, |positions|) && i < |positions|
    requires forall k :: 0 <= k < |positions| ==> 0 <= positions[k] < |positions|
    requires forall j, k :: 0 <= j < k < |positions| ==> positions[j] != positions[k]
    ensures order[positions[i]] == i
  {
    var n := |positions|;
    forall j, k | 0 <= j < k < n
      ensures positions[order[j]] < positions[order[k]]
    {
      assert Precedes(positions, order[j], order[k]);
    }
    var rank := seq(n, k requires 0 <= k < n => positions[order[k]]);
    IncreasingIsIdentity(rank, n);
    var k := IndexOf(order, i);
    assert rank[k] == k;
  }

  lemma {:induction false} IncreasingIsIdentity(q: seq<int>, n: nat)
    requires |q| == n && forall k :: 0 <= k < n ==> 0 <= q[k] < n
    requires forall j, k :: 0 <= j < k < n ==> q[j] < q[k]
    ensures forall k :: 0 <= k < n ==> q[k] == k
  {
    forall k | 0 <= k < n
      ensures q[k] == k
    {
      AtLeast(q, k);
      AtMost(q, n, k);
    }
  }

  lemma {:induction false} AtLeast(q: seq<int>, k: nat)
    requires k < |q| && q[0] >= 0 && forall i, j :: 0 <= i < j < |q| ==> q[i] < q[j]
    ensures q[k] >= k
  {
    if k == 0 {
    } else {
      AtLeast(q, k - 1);
    }
  }

  lemma {:induction false} AtMost(q: seq<int>, n: nat, k: nat)
    requires k < |q| == n && q[n - 1] < n && forall i, j :: 0 <= i < j < |q| ==> q[i] < q[j]
    ensures q[k] <= k
    decreases n - k
  {
    if k == n - 1 {
    } else {
      AtMost(q, n, k + 1);
    }
  }

  function Identity(n: nat): seq<nat> {
    seq(n, i => i)
  }

  function Positions(fields: seq<BeamField>): (p: seq<int>)
    ensures |p| == |fields| && forall i :: 0 <= i < |p| ==> p[i] == fields[i].position
  {
    seq(|fields|, i requires 0 <= i < |fields| => fields[i].position)
  }

  function EncodeOrder(fields: seq<BeamField>, positionsSet: bool): seq<nat> {
    if positionsSet then SortedOrder(Positions(fields), |fields|) else Identity(|fields|)
  }

  // ----- resolution -----

  function AtomFor(code: Int32): Option<Atom> {
    match code
    case 1 => Some(ByteAtom)
    case 2 => Some(Int16Atom)
    case 3 => Some(Int32Atom)
    case 4 => Some(Int64Atom)
    case 5 => Some(FloatAtom)
    case 6 => Some(DoubleAtom)
    case 7 => Some(StringAtom)
    case 8 => Some(BooleanAtom)
    case 9 => Some(BytesAtom)
    case _ => None
  }

  /** The number of each atomic type in the schema proto. */
  function CodeOf(a: Atom): int {
    match a
    case ByteAtom => 1
    case Int16Atom => 2
    case Int32Atom => 3
    case Int64Atom => 4
    case FloatAtom => 5
    case DoubleAtom => 6
    case StringAtom => 7
    case BooleanAtom => 8
    case BytesAtom => 9
  }

  /** `resolve_field_type`; `None` is a decode error. */
  function ResolveType(t: FieldType): Option<BeamType>
    decreases t
  {
    match t.info
    case None => None
    case Some(info) =>
      match ResolveKind(info) case None => None case Some(kind) => Some(BeamType(t.nullable, kind))
  }

  function ResolveKind(info: TypeInfo): Option<Kind>
    decreases info
  {
    match info
    case AtomicType(code) => (match AtomFor(code) case None => None case Some(a) => Some(Atomic(a)))
    case ArrayType(e) => (match ResolvePresent(e) case None => None case Some(b) => Some(ArrayOf(b)))
    case IterableType(e) => (match ResolvePresent(e) case None => None case Some(b) => Some(IterableOf(b)))
    case MapType(k, v) =>
      var key, val := ResolvePresent(k), ResolvePresent(v);
      if key.Some? && val.Some? then Some(MapOf(key.value, val.value)) else None
    case RowType(s) =>
      (match s
       case None => None
       case Some(schema) => match FromProto(schema) case None => None case Some(b) => Some(RowOf(b)))
    case LogicalType(urn, r) => (match ResolvePresent(r) case None => None case Some(b) => Some(LogicalOf(urn, b)))
  }

  function ResolvePresent(t: Option<FieldType>): Option<BeamType>
    decreases t
  {
    match t case None => None case Some(ft) => ResolveType(ft)
  }

  function ResolveFields(fields: seq<Field>): (out: Option<seq<BeamField>>)
    ensures out.Some? ==> |out.value| == |fields|
    decreases fields
  {
    if fields == [] then Some([])
    else
      var t, tail := ResolvePresent(fields[0].fieldType), ResolveFields(fields[1..]);
      if t.Some? && tail.Some? then
        Some([BeamField(fields[0].name, t.value, fields[0].position)] + tail.value)
      else None
  }

  /** `from_proto`. */
  function FromProto(s: Schema): Option<BeamSchema>
    decreases s
  {
    match ResolveFields(s.fields)
    case None => None
    case Some(fields) => Some(BeamSchema(s.id, fields, EncodeOrder(fields, s.positionsSet)))
  }

  // ----- what resolution promises -----

  /** Every nested type is present and specified. */
  predicate TypeComplete(t: FieldType)
    decreases t
  {
    t.info.Some? && InfoComplete(t.info.value)
  }

  predicate InfoComplete(info: TypeInfo)
    decreases info
  {
    match info
    case AtomicType(code) => 1 <= code <= 9
    case ArrayType(e) => e.Some? && TypeComplete(e.value)
    case IterableType(e) => e.Some? && TypeComplete(e.value)
    case MapType(k, v) => k.Some? && v.Some? && TypeComplete(k.value) && TypeComplete(v.value)
    case RowType(s) => s.Some? && SchemaComplete(s.value)
    case LogicalType(_, r) => r.Some? && TypeComplete(r.value)
  }

  predicate SchemaComplete(s: Schema)
    decreases s
  {
    forall i :: 0 <= i < |s.fields| ==> s.fields[i].fieldType.Some? && TypeComplete(s.fields[i].fieldType.value)
  }

  /** `b` is `t` resolved: the same shape at every depth, each row in encoding order. */
  predicate TypeMirrors(t: FieldType, b: BeamType)
    decreases t
  {
    b.nullable == t.nullable && t.info.Some? && KindMirrors(t.info.value, b.kind)
  }

  predicate KindMirrors(info: TypeInfo, k: Kind)
    decreases info
  {
    match info
    case AtomicType(code) => k.Atomic? && code == CodeOf(k.atom)
    case ArrayType(e) => k.ArrayOf? && e.Some? && TypeMirrors(e.value, k.element)
    case IterableType(e) => k.IterableOf? && e.Some? && TypeMirrors(e.value, k.element)
    case MapType(x, y) =>
      k.MapOf? && x.Some? && y.Some? && TypeMirrors(x.value, k.key) && TypeMirrors(y.value, k.val)
    case RowType(s) => k.RowOf? && s.Some? && SchemaMirrors(s.value, k.schema)
    case LogicalType(urn, r) => k.LogicalOf? && k.urn == urn && r.Some? && TypeMirrors(r.value, k.representation)
  }

  predicate SchemaMirrors(s: Schema, b: BeamSchema)
    decreases s
  {
    && b.id == s.id
    && |b.fields| == |s.fields|
    && (forall i :: 0 <= i < |s.fields| ==>
          && b.fields[i].name == s.fields[i].name
          && b.fields[i].position == s.fields[i].position
          && s.fields[i].fieldType.Some?
          && TypeMirrors(s.fields[i].fieldType.value, b.fields[i].fieldType))
    && (if s.positionsSet then IsOrder(b.encodeOrder, Positions(b.fields), |b.fields|)
        else |b.encodeOrder| == |b.fields| && forall i :: 0 <= i < |b.fields| ==> b.encodeOrder[i] == i)
  }

  lemma {:induction false} ResolveTypeSpec(t: FieldType)
    ensures ResolveType(t).Some? <==> TypeComplete(t)
    ensures ResolveType(t).Some? ==> TypeMirrors(t, ResolveType(t).value)
    decreases t
  {
    if t.info.Some? {
      ResolveKindSpec(t.info.value);
    }
  }

  lemma {:induction false} ResolveKindSpec(info: TypeInfo)
    ensures ResolveKind(info).Some? <==> InfoComplete(info)
    ensures ResolveKind(info).Some? ==> KindMirrors(info, ResolveKind(info).value)
    decreases info
  {
    match info
    case AtomicType(code) =>
    case ArrayType(e) => if e.Some? { ResolveTypeSpec(e.value); }
    case IterableType(e) => if e.Some? { ResolveTypeSpec(e.value); }
    case MapType(k, v) =>
      if k.Some? { ResolveTypeSpec(k.value); }
      if v.Some? { ResolveTypeSpec(v.value); }
    case RowType(s) => if s.Some? { FromProtoSpec(s.value); }
    case LogicalType(_, r) => if r.Some? { ResolveTypeSpec(r.value); }
  }

  lemma {:induction false} ResolveFieldsSpec(fields: seq<Field>)
    ensures ResolveFields(fields).Some? <==>
            forall i :: 0 <= i < |fields| ==> fields[i].fieldType.Some? && TypeComplete(fields[i].fieldType.value)
    ensures ResolveFields(fields).Some? ==>
              forall i :: 0 <= i < |fields| ==>
                var b := ResolveFields(fields).value[i];
                && b.name == fields[i].name && b.position == fields[i].position
                && fields[i].fieldType.Some? && TypeMirrors(fields[i].fieldType.value, b.fieldType)
    decreases fields
  {
    if fields == [] {
    } else {
      if fields[0].fieldType.Some? {
        ResolveTypeSpec(fields[0].fieldType.value);
      }
      ResolveFieldsSpec(fields[1..]);
      assert forall i :: 0 < i < |fields| ==> fields[i] == fields[1..][i - 1];
    }
  }

  /**
   Resolution succeeds exactly on complete schemas, and the result mirrors the schema
   with, at every depth, fields ordered by encoding position and ties in field order.
   */
  lemma {:induction false} FromProtoSpec(s: Schema)
    ensures FromProto(s).Some? <==> SchemaComplete(s)
    ensures FromProto(s).Some? ==> SchemaMirrors(s, FromProto(s).value)
    decreases s
  {
    ResolveFieldsSpec(s.fields);
    if FromProto(s).Some? && s.positionsSet {
      var b := FromProto(s).value;
      SortedOrderIsOrder(Positions(b.fields), |b.fields|);
    }
  }

  // ----- the loops -----

  /** The place behind every field of an ordered prefix whose position is not greater than that of `i`. */
  predicate IsPlace(order: seq<nat>, positions: seq<int>, i: nat, j: nat)
    requires i < |positions| && j <= |order| && forall k :: 0 <= k < |order| ==> order[k] < |positions|
  {
    && (forall k :: 0 <= k < j ==> positions[order[k]] <= positions[i])
    && (forall k :: j <= k < |order| ==> positions[i] < positions[order[k]])
  }

  lemma InsertedIsOrder(order: seq<nat>, positions: seq<int>, i: nat, j: nat)
    requires i < |positions| && IsOrder(order, positions, i) && j <= |order| && IsPlace(order, positions, i, j)
    ensures IsOrder(order[..j] + [i] + order[j..], positions, i + 1)
  {
    var out := order[..j] + [i] + order[j..];
    assert forall k :: 0 <= k < |out| ==> out[k] == if k < j then order[k] else if k == j then i else order[k - 1];
    forall k: nat | k < i + 1
      ensures k in out
    {
      if k < i {
        var p := IndexOf(order, k);
        assert out[if p < j then p else p + 1] == k;
      } else {
        assert out[j] == k;
      }
    }
  }

  /** A stable sort of the field indices by position, one insertion at a time. */
  method SortByPosition(positions: seq<int>) returns (order: seq<nat>)
    ensures IsOrder(order, positions, |positions|)
  {
    order := [];
    var i := 0;
    while i < |positions|
      invariant 0 <= i <= |positions| && IsOrder(order, positions, i)
    {
      var j := |order|;
      while j > 0 && positions[i] < positions[order[j - 1]]
        invariant 0 <= j <= |order|
        invariant forall k :: j <= k < |order| ==> positions[i] < positions[order[k]]
      {
        j := j - 1;
      }
      assert IsPlace(order, positions, i, j) by {
        if j > 0 {
          assert forall k :: 0 <= k < j - 1 ==> Precedes(positions, order[k], order[j - 1]);
        }
      }
      InsertedIsOrder(order, positions, i, j);
      order := order[..j] + [i] + order[j..];
      i := i + 1;
    }
  }

  method BuildSchema(s: Schema) returns (r: Option<BeamSchema>)
    ensures r == FromProto(s)
  {
    var fields := [];
    var i := 0;
    assert s.fields[0..] == s.fields;
    JoinedNothing(ResolveFields(s.fields));
    while i < |s.fields|
      invariant 0 <= i <= |s.fields|
      invariant ResolveFields(s.fields) == Joined(fields, ResolveFields(s.fields[i..]))
    {
      var f := s.fields[i];
      assert s.fields[i..][1..] == s.fields[i + 1..];
      if f.fieldType.None? {
        return None;
      }
      var t := ResolveType(f.fieldType.value);
      if t.None? {
        return None;
      }
      var field := BeamField(f.name, t.value, f.position);
      JoinedAssociative(fields, [field], ResolveFields(s.fields[i + 1..]));
      fields := fields + [field];
      i := i + 1;
    }
    assert fields + [] == fields;
    var order := Identity(|fields|);
    if s.positionsSet {
      order := SortByPosition(Positions(fields));
      SortedOrderIsOrder(Positions(fields), |fields|);
      OrderUnique(order, SortedOrder(Positions(fields), |fields|), Positions(fields), |fields|);
    }
    r := Some(BeamSchema(s.id, fields, order));
  }
}
