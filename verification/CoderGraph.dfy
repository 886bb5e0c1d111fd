/**
 The pipeline's coder map: resolution of an id into a coder tree, and the rewrite that
 wraps every pickled leaf in a length prefix.
 */
module CoderGraph {
  import opened Bytes
  import opened Coders

  type Id = string

  datatype Spec = Spec(urn: string, payload: seq<Byte>)

  datatype Proto = Proto(spec: Option<Spec>, components: seq<Id>)

  type Graph = map<Id, Proto>

  const BYTES_URN := "beam:coder:bytes:v1"
  const STRING_URN := "beam:coder:string_utf8:v1"
  const KV_URN := "beam:coder:kv:v1"
  const BOOL_URN := "beam:coder:bool:v1"
  const VARINT_URN := "beam:coder:varint:v1"
  const DOUBLE_URN := "beam:coder:double:v1"
  const ITERABLE_URN := "beam:coder:iterable:v1"
  const NULLABLE_URN := "beam:coder:nullable:v1"
  const LENGTH_PREFIX_URN := "beam:coder:length_prefix:v1"
  const JAVA_URN := "beam:coders:javasdk:0.1"
  const PICKLE_URN := "beam:coder:pickled_python:v1"
  const TUPLE_URN := "beam:coder:tuple:v1"

  // ----- resolution -----

  /** The URN of an id: its spec's, or the id itself when it has none. */
  function Urn(g: Graph, id: Id): string {
    if id in g && g[id].spec.Some? then g[id].spec.value.urn else id
  }

  /** The component ids; a coder outside the map has none to offer. */
  function ComponentsOf(g: Graph, id: Id): seq<Id> {
    if id in g then g[id].components else []
  }

  /** The leaf a URN stands for; Java SDK coders are told apart by their id. */
  function LeafFor(urn: string, id: Id): Option<Coder> {
    if urn == BYTES_URN then Some(BytesCoder)
    else if urn == STRING_URN then Some(StringUtf8)
    else if urn == VARINT_URN then Some(VarInt)
    else if urn == BOOL_URN then Some(Bool)
    else if urn == DOUBLE_URN then Some(Double)
    else if urn == PICKLE_URN then Some(Pickle)
    else if urn == LENGTH_PREFIX_URN then Some(LengthPrefix)
    else if urn == JAVA_URN then
      Some(if id == "VoidCoder" then Void else if id == "VarIntCoder" then VarInt32 else JavaOpaque)
    else None
  }

  /** `from_urn` returns `c` for `id`: no panic, no endless recursion, and this tree. */
  predicate Resolves(g: Graph, id: Id, c: Coder)
    decreases c
  {
    var urn, ids := Urn(g, id), ComponentsOf(g, id);
    match LeafFor(urn, id)
    case Some(leaf) => c == leaf
    case None =>
      match c
      case Iterable(e) => urn == ITERABLE_URN && |ids| == 1 && Resolves(g, ids[0], e)
      case Nullable(inner) => urn == NULLABLE_URN && |ids| == 1 && Resolves(g, ids[0], inner)
      case Tuple(cs) =>
        urn == TUPLE_URN && ids != [] && |ids| == |cs| && forall i :: 0 <= i < |ids| ==> Resolves(g, ids[i], cs[i])
      case Kv(k, v) => urn == KV_URN && |ids| == 2 && Resolves(g, ids[0], k) && Resolves(g, ids[1], v)
      case _ => false
  }

  /** The coders whose components `from_urn` goes on to resolve. */
  predicate Recurses(g: Graph, id: Id) {
    var urn, n := Urn(g, id), |ComponentsOf(g, id)|;
    || ((urn == ITERABLE_URN || urn == NULLABLE_URN) && n == 1)
    || (urn == TUPLE_URN && n > 0)
    || (urn == KV_URN && n == 2)
  }

  /** A witness that the map is acyclic: where resolution recurses, components rank below the coders that use them. */
  ghost predicate Ranked(g: Graph, rank: Id -> nat) {
    forall id, i :: id in g && Recurses(g, id) && 0 <= i < |g[id].components| ==> rank(g[id].components[i]) < rank(id)
  }

  /** `from_urn` on an acyclic map; `None` is a panic. */
  ghost function FromUrn(g: Graph, rank: Id -> nat, id: Id): Option<Coder>
    requires Ranked(g, rank)
    decreases rank(id), 1, 0
  {
    var urn, ids := Urn(g, id), ComponentsOf(g, id);
    if LeafFor(urn, id).Some? then LeafFor(urn, id)
    else if urn == ITERABLE_URN && |ids| == 1 then
      (match FromUrn(g, rank, ids[0]) case None => None case Some(e) => Some(Iterable(e)))
    else if urn == NULLABLE_URN && |ids| == 1 then
      (match FromUrn(g, rank, ids[0]) case None => None case Some(e) => Some(Nullable(e)))
    else if urn == TUPLE_URN && ids != [] then
      (match FromUrns(g, rank, ids, rank(id)) case None => None case Some(cs) => Some(Tuple(cs)))
    else if urn == KV_URN && |ids| == 2 then
      var k, v := FromUrn(g, rank, ids[0]), FromUrn(g, rank, ids[1]);
      if k.Some? && v.Some? then Some(Kv(k.value, v.value)) else None
    else None
  }

  ghost function FromUrns(g: Graph, rank: Id -> nat, ids: seq<Id>, bound: nat): (cs: Option<seq<Coder>>)
    requires Ranked(g, rank) && forall i :: 0 <= i < |ids| ==> rank(ids[i]) < bound
    ensures cs.Some? ==> |cs.value| == |ids|
    decreases bound, 0, |ids|
  {
    if ids == [] then Some([])
    else
      var c, cs := FromUrn(g, rank, ids[0]), FromUrns(g, rank, ids[1..], bound);
      if c.Some? && cs.Some? then Some([c.value] + cs.value) else None
  }

  /** The recursion computes exactly the trees the relation admits, whatever the ranking. */
  lemma {:induction false} FromUrnResolves(g: Graph, rank: Id -> nat, id: Id, c: Coder)
    requires Ranked(g, rank)
    ensures FromUrn(g, rank, id) == Some(c) <==> Resolves(g, id, c)
    decreases rank(id), 1, 0
  {
    var urn, ids := Urn(g, id), ComponentsOf(g, id);
    if LeafFor(urn, id).Some? || !Recurses(g, id) {
    } else {
      if c.Iterable? && |ids| == 1 {
        FromUrnResolves(g, rank, ids[0], c.element);
      } else if c.Nullable? && |ids| == 1 {
        FromUrnResolves(g, rank, ids[0], c.inner);
      } else if c.Tuple? && ids != [] {
        FromUrnsResolve(g, rank, ids, rank(id), c.components);
      } else if c.Kv? && |ids| == 2 {
        FromUrnResolves(g, rank, ids[0], c.keyCoder);
        FromUrnResolves(g, rank, ids[1], c.valueCoder);
      }
    }
  }

  lemma {:induction false} FromUrnsResolve(g: Graph, rank: Id -> nat, ids: seq<Id>, bound: nat, cs: seq<Coder>)
    requires Ranked(g, rank) && forall i :: 0 <= i < |ids| ==> rank(ids[i]) < bound
    ensures FromUrns(g, rank, ids, bound) == Some(cs) <==>
            |ids| == |cs| && forall i :: 0 <= i < |ids| ==> Resolves(g, ids[i], cs[i])
    decreases bound, 0, |ids|
  {
    if ids == [] || cs == [] {
    } else {
      FromUrnResolves(g, rank, ids[0], cs[0]);
      FromUrnsResolve(g, rank, ids[1..], bound, cs[1..]);
      assert cs == [cs[0]] + cs[1..];
      assert forall i :: 0 < i < |ids| ==> ids[i] == ids[1..][i - 1];
      assert forall i :: 0 < i < |cs| ==> cs[i] == cs[1..][i - 1];
    }
  }

  lemma {:induction false} ResolvesOnce(g: Graph, id: Id, c: Coder, d: Coder)
    requires Resolves(g, id, c) && Resolves(g, id, d)
    ensures c == d
    decreases c
  {
    var ids := ComponentsOf(g, id);
    if LeafFor(Urn(g, id), id).Some? {
    } else {
      match c
      case Iterable(e) => ResolvesOnce(g, ids[0], e, d.element);
      case Nullable(e) => ResolvesOnce(g, ids[0], e, d.inner);
      case Kv(k, v) =>
        ResolvesOnce(g, ids[0], k, d.keyCoder);
        ResolvesOnce(g, ids[1], v, d.valueCoder);
      case Tuple(cs) =>
        forall i | 0 <= i < |cs|
          ensures cs[i] == d.components[i]
        {
          ResolvesOnce(g, ids[i], cs[i], d.components[i]);
        }
        assert cs == d.components;
      case _ =>
    }
  }

  // ----- the rewrite -----

  const SUFFIX := "_lp"

  function Lp(id: Id): Id {
    id + SUFFIX
  }

  /** The id a wrapper was named after. */
  function Stem(id: Id): Id {
    if |id| >= 3 then id[..|id| - 3] else id
  }

  lemma StemOfLp(id: Id)
    ensures Stem(Lp(id)) == id
  {
  }

  lemma LpInjective(a: Id, b: Id)
    requires Lp(a) == Lp(b)
    ensures a == b
  {
    StemOfLp(a);
    StemOfLp(b);
  }

  predicate IsPickledLeaf(g: Graph, id: Id) {
    id in g && g[id].spec.Some? && g[id].spec.value.urn == PICKLE_URN
  }

  function Leaves(g: Graph): set<Id> {
    set id | id in g && IsPickledLeaf(g, id)
  }

  function Wrappers(g: Graph): set<Id> {
    set id | id in Leaves(g) :: Lp(id)
  }

  function WrapperFor(id: Id): Proto {
    Proto(Some(Spec(LENGTH_PREFIX_URN, [])), [id])
  }

  function Remap(leaves: set<Id>, id: Id): Id {
    if id in leaves then Lp(id) else id
  }

  function RemapAll(leaves: set<Id>, ids: seq<Id>): (out: seq<Id>)
    ensures |out| == |ids| && forall i :: 0 <= i < |ids| ==> out[i] == Remap(leaves, ids[i])
  {
    seq(|ids|, i requires 0 <= i < |ids| => Remap(leaves, ids[i]))
  }

  /** What the rewrite makes of the entry at `id`, in the map extended with the wrappers. */
  function RewrittenEntry(g: Graph, id: Id): Proto
    requires id in g || id in Wrappers(g)
  {
    if id in Wrappers(g) then
      if id in g then g[id] else WrapperFor(Stem(id))
    else g[id].(components := RemapAll(Leaves(g), g[id].components))
  }

  /** `length_prefix_pickled_leaves`. */
  function Rewrite(g: Graph): Graph {
    map id | id in g.Keys + Wrappers(g) :: RewrittenEntry(g, id)
  }

  /** `resolve_length_prefixed_coder_id`. */
  function BoundaryId(g: Graph, id: Id): Id {
    if Lp(id) in g then Lp(id) else id
  }

  lemma WrapperIffLeaf(g: Graph, id: Id)
    ensures Lp(id) in Wrappers(g) <==> id in Leaves(g)
  {
    if Lp(id) in Wrappers(g) {
      var leaf :| leaf in Leaves(g) && Lp(leaf) == Lp(id);
      LpInjective(leaf, id);
    }
  }

  /** Every component id is a key of the map. */
  predicate Closed(g: Graph) {
    forall id, i :: id in g && 0 <= i < |g[id].components| ==> g[id].components[i] in g
  }

  // ----- shape -----

  lemma {:induction false} WrappersCount(leaves: set<Id>)
    ensures |set id | id in leaves :: Lp(id)| == |leaves|
    decreases |leaves|
  {
    var image := set id | id in leaves :: Lp(id);
    if leaves == {} {
    } else {
      var x :| x in leaves;
      var rest := leaves - {x};
      var image' := set id | id in rest :: Lp(id);
      WrappersCount(rest);
      assert Lp(x) !in image' by {
        if Lp(x) in image' {
          var y :| y in rest && Lp(y) == Lp(x);
          LpInjective(x, y);
        }
      }
      assert image == image' + {Lp(x)};
    }
  }

  /** One entry is added for each leaf whose wrapper name is free, and none for the others. */
  lemma OneWrapperPerLeaf(g: Graph)
    ensures |Rewrite(g)| == |g| + |set id | id in Leaves(g) && Lp(id) !in g|
  {
    var unwrapped := set id | id in Leaves(g) && Lp(id) !in g;
    var added := set id | id in unwrapped :: Lp(id);
    WrappersCount(unwrapped);
    assert g.Keys !! added;
    assert Rewrite(g).Keys == g.Keys + added;
    assert |Rewrite(g).Keys| == |g.Keys| + |added|;
  }

  /** Every original coder keeps its spec, its number of components and, in place, their meaning. */
  lemma RewriteKeepsShape(g: Graph, id: Id)
    requires id in g
    ensures id in Rewrite(g) && Rewrite(g)[id].spec == g[id].spec
    ensures |Rewrite(g)[id].components| == |g[id].components|
    ensures id in Wrappers(g) ==> Rewrite(g)[id] == g[id]
    ensures id !in Wrappers(g) ==> forall i :: 0 <= i < |g[id].components| ==>
              Rewrite(g)[id].components[i] ==
              if IsPickledLeaf(g, g[id].components[i]) then g[id].components[i] + "_lp" else g[id].components[i]
  {
  }

  // ----- acyclicity -----

  ghost predicate Acyclic(g: Graph) {
    exists rank: Id -> nat :: Ranked(g, rank)
  }

  /**
   The coder of the original map that `id` depends on through its component `x` once the
   map is rewritten: a taken wrapper name stands in for its leaf, a name that a new wrapper
   binds leads to the leaf, and everything else stays.
   */
  function Stand(g: Graph, id: Id, x: Id): Id {
    if id !in Wrappers(g) && x in Leaves(g) && Lp(x) in g then Lp(x)
    else if x in Wrappers(g) && x !in g then Stem(x)
    else x
  }

  /** `rank` witnesses that the original map has no cycle when its components are so read. */
  ghost predicate RankedThrough(g: Graph, rank: Id -> nat) {
    forall id, i :: id in g && Recurses(g, id) && 0 <= i < |g[id].components| ==>
      rank(Stand(g, id, g[id].components[i])) < rank(id)
  }

  /** New wrappers are leaves: they rank below all others. */
  ghost function RankAfter(g: Graph, rank: Id -> nat, id: Id): nat {
    if id in Wrappers(g) && id !in g then 0 else rank(id) + 1
  }

  ghost function RewrittenRank(g: Graph, rank: Id -> nat): Id -> nat {
    id => RankAfter(g, rank, id)
  }

  lemma NewWrapperStem(g: Graph, id: Id)
    requires id in Wrappers(g)
    ensures Stem(id) in Leaves(g) && Lp(Stem(id)) == id
  {
    var leaf :| leaf in Leaves(g) && Lp(leaf) == id;
    StemOfLp(leaf);
  }

  /** What the component `x` of `id` has become after the rewrite. */
  function After(g: Graph, id: Id, x: Id): Id {
    if id in Wrappers(g) then x else Remap(Leaves(g), x)
  }

  /** The rewrite keeps which coders recurse, and turns each component into what it has become. */
  lemma RecursesAfter(g: Graph, id: Id)
    requires id in g
    ensures Recurses(Rewrite(g), id) <==> Recurses(g, id)
    ensures |Rewrite(g)[id].components| == |g[id].components|
    ensures forall i :: 0 <= i < |g[id].components| ==>
              Rewrite(g)[id].components[i] == After(g, id, g[id].components[i])
  {
    RewriteKeepsShape(g, id);
  }

  /** A component that is not a new wrapper is what it stands for. */
  lemma AfterStands(g: Graph, id: Id, x: Id)
    ensures var y := After(g, id, x); (y in Wrappers(g) && y !in g) || y == Stand(g, id, x)
  {
    if id !in Wrappers(g) && x in Leaves(g) {
      assert Lp(x) in Wrappers(g);
    }
  }

  lemma NewWrapperDoesNotRecurse(g: Graph, id: Id)
    requires id in Wrappers(g) && id !in g
    ensures !Recurses(Rewrite(g), id) && Resolves(Rewrite(g), id, LengthPrefix)
  {
  }

  lemma RewriteRanked(g: Graph, rank: Id -> nat)
    requires RankedThrough(g, rank)
    ensures Ranked(Rewrite(g), RewrittenRank(g, rank))
  {
    var h, r := Rewrite(g), RewrittenRank(g, rank);
    forall id, i | id in h && Recurses(h, id) && 0 <= i < |h[id].components|
      ensures r(h[id].components[i]) < r(id)
    {
      if id in g {
        RecursesAfter(g, id);
        AfterStands(g, id, g[id].components[i]);
      } else {
        NewWrapperDoesNotRecurse(g, id);
      }
    }
  }

  ghost function RankBefore(g: Graph, rank: Id -> nat): Id -> nat {
    id => if Recurses(g, id) then rank(id) + 1 else 0
  }

  lemma RankedBefore(g: Graph, rank: Id -> nat)
    requires Ranked(Rewrite(g), rank)
    ensures RankedThrough(g, RankBefore(g, rank))
  {
    var h, r := Rewrite(g), RankBefore(g, rank);
    forall id, i | id in g && Recurses(g, id) && 0 <= i < |g[id].components|
      ensures r(Stand(g, id, g[id].components[i])) < r(id)
    {
      var x := g[id].components[i];
      RecursesAfter(g, id);
      StandRecurses(g, id, x);
      assert rank(h[id].components[i]) < rank(id);
    }
  }

  /** Whatever stands for a component and recurses is that component after the rewrite. */
  lemma StandRecurses(g: Graph, id: Id, x: Id)
    ensures Recurses(g, Stand(g, id, x)) ==> Stand(g, id, x) == After(g, id, x)
  {
    if x in Wrappers(g) && x !in g {
      NewWrapperStem(g, x);
    }
  }

  /** The rewritten map is acyclic exactly when the original has no cycle through taken wrapper names. */
  lemma AcyclicAfterIff(g: Graph)
    ensures Acyclic(Rewrite(g)) <==> exists rank: Id -> nat :: RankedThrough(g, rank)
  {
    if Acyclic(Rewrite(g)) {
      var rank: Id -> nat :| Ranked(Rewrite(g), rank);
      RankedBefore(g, rank);
    }
    if rank: Id -> nat :| RankedThrough(g, rank) {
      RewriteRanked(g, rank);
    }
  }

  /** In particular an acyclic closed map stays acyclic when every wrapper name is free. */
  lemma FreeNamesStayAcyclic(g: Graph)
    requires Acyclic(g) && Closed(g) && forall id :: id in Leaves(g) ==> Lp(id) !in g
    ensures Acyclic(Rewrite(g))
  {
    var rank: Id -> nat :| Ranked(g, rank);
    assert RankedThrough(g, rank);
    AcyclicAfterIff(g);
  }

  function Leaf(): Proto {
    Proto(Some(Spec(PICKLE_URN, [])), [])
  }

  function Using(urn: string, id: Id): Proto {
    Proto(Some(Spec(urn, [])), [id])
  }

  /** Two coders made of each other resolve to no tree. */
  lemma {:induction false} CycleNeverResolves(g: Graph, a: Id, b: Id, c: Coder)
    requires a in g && b in g && g[a] == Using(NULLABLE_URN, b) && g[b] == Using(ITERABLE_URN, a)
    ensures !Resolves(g, a, c) && !Resolves(g, b, c)
  {
    assert LeafFor(NULLABLE_URN, a).None? && LeafFor(ITERABLE_URN, b).None?;
    if c.Nullable? {
      CycleNeverResolves(g, a, b, c.inner);
    } else if c.Iterable? {
      CycleNeverResolves(g, a, b, c.element);
    }
  }

  /** A closed acyclic map that the rewrite makes cyclic: `n` resolved before, and resolving it never returns after. */
  lemma RewriteMakesACycle() returns (g: Graph)
    ensures Closed(g) && Acyclic(g) && !Acyclic(Rewrite(g))
    ensures Resolves(g, "n", Nullable(Pickle)) && forall c :: !Resolves(Rewrite(g), "n", c)
  {
    g := map["x" := Leaf(), "x_lp" := Using(ITERABLE_URN, "n"), "n" := Using(NULLABLE_URN, "x")];
    var rank: Id -> nat := id => if id == "x_lp" then 2 else if id == "n" then 1 else 0;
    assert Ranked(g, rank);
    assert Lp("x") == "x_lp" && "x" in Leaves(g) && "x_lp" in Wrappers(g);
    assert |"n"| == 1;
    assert "n" !in Wrappers(g);
    var h := Rewrite(g);
    assert h["x_lp"].components[0] == "n" && h["n"].components[0] == "x_lp";
    assert h["n"] == Using(NULLABLE_URN, "x_lp") && h["x_lp"] == Using(ITERABLE_URN, "n");
    forall c {
      CycleNeverResolves(h, "n", "x_lp", c);
    }
  }

  // ----- idempotence -----

  lemma RewriteKeepsLeaves(g: Graph)
    ensures Leaves(Rewrite(g)) == Leaves(g)
  {
  }

  /** No coder the rewrite touches uses a leaf whose wrapper name is itself a leaf. */
  predicate Settled(g: Graph) {
    forall id, i :: id in g && id !in Wrappers(g) && 0 <= i < |g[id].components| ==>
      (g[id].components[i] in Leaves(g) ==> Lp(g[id].components[i]) !in Leaves(g))
  }

  /** A second rewrite changes nothing exactly when no wrapper name is itself a leaf in use. */
  lemma IdempotentIffSettled(g: Graph)
    ensures Rewrite(Rewrite(g)) == Rewrite(g) <==> Settled(g)
  {
    var h := Rewrite(g);
    RewriteKeepsLeaves(g);
    assert Wrappers(h) == Wrappers(g);
    assert h.Keys == g.Keys + Wrappers(g) && Rewrite(h).Keys == h.Keys;
    if Settled(g) {
      forall id | id in h
        ensures Rewrite(h)[id] == h[id]
      {
        if id !in Wrappers(g) {
          assert Rewrite(h)[id].components == h[id].components;
        }
      }
    } else {
      var id, i :| id in g && id !in Wrappers(g) && 0 <= i < |g[id].components|
                   && g[id].components[i] in Leaves(g) && Lp(g[id].components[i]) in Leaves(g);
      var x := Lp(g[id].components[i]);
      assert h[id].components[i] == x && Rewrite(h)[id].components[i] == Lp(x);
      assert |Lp(x)| == |x| + 3;
    }
  }

  /** Two pickled leaves, one with the other's wrapper name: the second rewrite wraps once more. */
  lemma RewriteNotIdempotent() returns (g: Graph)
    ensures Rewrite(Rewrite(g)) != Rewrite(g)
  {
    g := map["a" := Leaf(), "a_lp" := Leaf(), "n" := Using(NULLABLE_URN, "a")];
    assert Lp("a") == "a_lp" && "a" in Leaves(g) && "a_lp" in Leaves(g);
    assert |"n"| == 1;
    assert g["n"].components[0] == "a";
    assert !Settled(g);
    IdempotentIffSettled(g);
  }

  // ----- meaning -----

  /** A leaf's wrapper name is free, or already taken by a length prefix. */
  predicate NoCollision(g: Graph) {
    forall id :: id in Leaves(g) && Lp(id) in g ==> Urn(g, Lp(id)) == LENGTH_PREFIX_URN
  }

  /** `id` means a pickled leaf only through an explicit spec. */
  predicate Explicit(g: Graph, id: Id) {
    Urn(g, id) == PICKLE_URN ==> id in Leaves(g)
  }

  predicate AllExplicit(g: Graph) {
    forall id, i :: id in g && 0 <= i < |g[id].components| ==> Explicit(g, g[id].components[i])
  }

  /** The tree with every pickled leaf replaced by a length prefix. */
  function WrapPickles(c: Coder): Coder {
    match c
    case Pickle => LengthPrefix
    case Iterable(e) => Iterable(WrapPickles(e))
    case Nullable(e) => Nullable(WrapPickles(e))
    case Tuple(cs) => Tuple(WrapAll(cs))
    case Kv(k, v) => Kv(WrapPickles(k), WrapPickles(v))
    case Gbk(k, e) => Gbk(WrapPickles(k), WrapPickles(e))
    case _ => c
  }

  function WrapAll(cs: seq<Coder>): (out: seq<Coder>)
    ensures |out| == |cs| && forall i :: 0 <= i < |cs| ==> out[i] == WrapPickles(cs[i])
  {
    if cs == [] then [] else [WrapPickles(cs[0])] + WrapAll(cs[1..])
  }

  predicate HasPickle(c: Coder) {
    match c
    case Pickle => true
    case Iterable(e) => HasPickle(e)
    case Nullable(e) => HasPickle(e)
    case Tuple(cs) => exists i :: 0 <= i < |cs| && HasPickle(cs[i])
    case Kv(k, v) => HasPickle(k) || HasPickle(v)
    case Gbk(k, e) => HasPickle(k) || HasPickle(e)
    case _ => false
  }

  /** Wrapping leaves no pickled leaf, and changes exactly the trees that have one. */
  lemma {:induction false} NoPickleLeft(c: Coder)
    ensures !HasPickle(WrapPickles(c))
    ensures HasPickle(c) <==> WrapPickles(c) != c
  {
    match c
    case Iterable(e) => NoPickleLeft(e);
    case Nullable(e) => NoPickleLeft(e);
    case Tuple(cs) =>
      forall i | 0 <= i < |cs|
        ensures !HasPickle(WrapAll(cs)[i])
        ensures HasPickle(cs[i]) <==> WrapAll(cs)[i] != cs[i]
      {
        NoPickleLeft(cs[i]);
      }
      assert WrapAll(cs) == cs <==> forall i :: 0 <= i < |cs| ==> WrapAll(cs)[i] == cs[i];
    case Kv(k, v) => NoPickleLeft(k); NoPickleLeft(v);
    case Gbk(k, e) => NoPickleLeft(k); NoPickleLeft(e);
    case _ =>
  }

  lemma UrnOfRewritten(g: Graph, id: Id)
    requires id !in Wrappers(g) || id in g
    ensures Urn(Rewrite(g), id) == Urn(g, id)
    ensures id !in Wrappers(g) ==> ComponentsOf(Rewrite(g), id) == RemapAll(Leaves(g), ComponentsOf(g, id))
  {
  }

  lemma UrnOfWrapper(g: Graph, leaf: Id)
    requires leaf in Leaves(g)
    ensures Urn(Rewrite(g), Lp(leaf)) == if Lp(leaf) in g then Urn(g, Lp(leaf)) else LENGTH_PREFIX_URN
  {
    assert Lp(leaf) in Wrappers(g);
  }

  /** A leaf is read as a length prefix exactly when its wrapper name does not collide. */
  lemma WrapperResolvesIffFree(g: Graph, leaf: Id)
    requires leaf in Leaves(g)
    ensures Resolves(Rewrite(g), Lp(leaf), LengthPrefix) <==>
            (Lp(leaf) in g ==> Urn(g, Lp(leaf)) == LENGTH_PREFIX_URN)
  {
    UrnOfWrapper(g, leaf);
  }

  /** A new wrapper is a length prefix around its leaf, and under it the SDK still finds the leaf's own coder. */
  lemma WrapperKeepsLeaf(g: Graph, leaf: Id)
    requires leaf in Leaves(g) && leaf + "_lp" !in g
    ensures leaf + "_lp" in Rewrite(g)
    ensures var wrapper := Rewrite(g)[leaf + "_lp"];
            && wrapper.spec == Some(Spec("beam:coder:length_prefix:v1", []))
            && wrapper.components == [leaf]
            && Resolves(Rewrite(g), wrapper.components[0], Pickle)
            && Rewrite(g)[wrapper.components[0]].spec == g[leaf].spec
  {
    assert Lp(leaf) == leaf + "_lp" && Lp(leaf) in Wrappers(g);
    StemOfLp(leaf);
    UrnOfRewritten(g, leaf);
    RewriteKeepsShape(g, leaf);
  }

  /** Names outside the map that a wrapper takes over resolved to nothing before. */
  lemma UnboundWrapperName(g: Graph, leaf: Id, c: Coder)
    requires leaf in Leaves(g) && Lp(leaf) !in g
    ensures !Resolves(g, Lp(leaf), c)
  {
    var id := Lp(leaf);
    assert id[|id| - 1] == 'p';
    assert Urn(g, id) == id && ComponentsOf(g, id) == [];
  }

  /** Resolving any id after the rewrite gives the old tree with its pickled leaves wrapped. */
  lemma {:induction false} RewriteKeepsMeaning(g: Graph, id: Id, c: Coder)
    requires NoCollision(g) && AllExplicit(g) && Explicit(g, id) && Resolves(g, id, c)
    ensures Resolves(Rewrite(g), Remap(Leaves(g), id), WrapPickles(c))
    decreases c, 1
  {
    if id in Leaves(g) {
      UrnOfWrapper(g, id);
    } else if id in Wrappers(g) || LeafFor(Urn(g, id), id).Some? {
      LeafKeepsMeaning(g, id, c);
    } else {
      CompositeKeepsMeaning(g, id, c);
    }
  }

  lemma {:induction false} LeafKeepsMeaning(g: Graph, id: Id, c: Coder)
    requires NoCollision(g) && Explicit(g, id) && id !in Leaves(g) && Resolves(g, id, c)
    requires id in Wrappers(g) || LeafFor(Urn(g, id), id).Some?
    ensures Resolves(Rewrite(g), id, WrapPickles(c))
  {
    if id in Wrappers(g) && id !in g {
      NewWrapperStem(g, id);
      UnboundWrapperName(g, Stem(id), c);
    } else {
      UrnOfRewritten(g, id);
    }
  }

  lemma {:induction false} CompositeKeepsMeaning(g: Graph, id: Id, c: Coder)
    requires NoCollision(g) && AllExplicit(g) && Resolves(g, id, c)
    requires id !in Leaves(g) && id !in Wrappers(g) && LeafFor(Urn(g, id), id).None?
    ensures Resolves(Rewrite(g), id, WrapPickles(c))
    decreases c, 0
  {
    UrnOfRewritten(g, id);
    var ids := ComponentsOf(g, id);
    assert forall i :: 0 <= i < |ids| ==> Explicit(g, ids[i]);
    if c.Iterable? {
      RewriteKeepsMeaning(g, ids[0], c.element);
    } else if c.Nullable? {
      RewriteKeepsMeaning(g, ids[0], c.inner);
    } else if c.Kv? {
      RewriteKeepsMeaning(g, ids[0], c.keyCoder);
      RewriteKeepsMeaning(g, ids[1], c.valueCoder);
    } else {
      var cs := c.components;
      forall i | 0 <= i < |cs|
        ensures Resolves(Rewrite(g), Remap(Leaves(g), ids[i]), WrapAll(cs)[i])
      {
        RewriteKeepsMeaning(g, ids[i], cs[i]);
      }
    }
  }

  /** The id used at the SDK boundary is right exactly when no unrelated coder has the wrapper's name. */
  lemma BoundaryIdExact(g: Graph, id: Id)
    ensures BoundaryId(Rewrite(g), id) == Remap(Leaves(g), id) <==> id in Leaves(g) || Lp(id) !in g
  {
    WrapperIffLeaf(g, id);
    assert |Lp(id)| == |id| + 3;
  }

  /**
   End to end: at the boundary the runner resolves the old tree with no pickled leaf left, or
   else the unrelated coder that already had the wrapper's name.
   */
  lemma BoundaryMeaning(g: Graph, id: Id, c: Coder)
    requires NoCollision(g) && AllExplicit(g) && Explicit(g, id) && Resolves(g, id, c)
    ensures if id in Leaves(g) || Lp(id) !in g
            then Resolves(Rewrite(g), BoundaryId(Rewrite(g), id), WrapPickles(c)) && !HasPickle(WrapPickles(c))
            else BoundaryId(Rewrite(g), id) == Lp(id) && id !in Leaves(g) && Lp(id) in g
  {
    BoundaryIdExact(g, id);
    RewriteKeepsMeaning(g, id, c);
    NoPickleLeft(c);
  }

  /** A map without any pickled leaf on which the boundary coder of `n` is not the coder of `n`. */
  lemma BoundaryPicksUnrelated() returns (g: Graph)
    ensures Closed(g) && Acyclic(g) && Leaves(g) == {} && Rewrite(g) == g
    ensures Resolves(g, "n", Nullable(BytesCoder)) && Resolves(g, BoundaryId(g, "n"), VarInt)
  {
    g := map["b" := Proto(Some(Spec(BYTES_URN, [])), []), "n" := Using(NULLABLE_URN, "b"),
             "n_lp" := Proto(Some(Spec(VARINT_URN, [])), [])];
    var rank: Id -> nat := id => if id == "n" then 1 else 0;
    assert Ranked(g, rank);
    assert Lp("n") == "n_lp";
    NothingToRewrite(g);
  }

  /** The condition on names is exact: meaning is kept for every id only if no wrapper name collides. */
  lemma NoCollisionExact(g: Graph)
    requires AllExplicit(g)
    ensures NoCollision(g) <==>
            forall id, c :: Explicit(g, id) && Resolves(g, id, c) ==>
              Resolves(Rewrite(g), Remap(Leaves(g), id), WrapPickles(c))
  {
    if NoCollision(g) {
      forall id, c | Explicit(g, id) && Resolves(g, id, c)
        ensures Resolves(Rewrite(g), Remap(Leaves(g), id), WrapPickles(c))
      {
        RewriteKeepsMeaning(g, id, c);
      }
    } else {
      var leaf :| leaf in Leaves(g) && Lp(leaf) in g && Urn(g, Lp(leaf)) != LENGTH_PREFIX_URN;
      assert Explicit(g, leaf) && Resolves(g, leaf, Pickle);
      WrapperResolvesIffFree(g, leaf);
      assert !Resolves(Rewrite(g), Remap(Leaves(g), leaf), WrapPickles(Pickle));
    }
  }

  // ----- what still resolves -----

  ghost predicate HasTree(g: Graph, id: Id) {
    exists c :: Resolves(g, id, c)
  }

  /** No component is an unbound name that a new wrapper would bind, as in every closed map. */
  predicate NoneCaptured(g: Graph) {
    forall id, i :: id in g && 0 <= i < |g[id].components| ==>
      (g[id].components[i] in Wrappers(g) ==> g[id].components[i] in g)
  }

  /**
   `rank` witnesses that every coder which resolves still does when each use of a leaf with
   a taken wrapper name is read as a use of that name: what it then uses resolves, and no
   use leads back.
   */
  ghost predicate RanksTrees(g: Graph, rank: Id -> nat) {
    forall id, i :: id in g && HasTree(g, id) && Recurses(g, id) && 0 <= i < |g[id].components| ==>
      var x := Stand(g, id, g[id].components[i]);
      HasTree(g, x) && rank(x) < rank(id)
  }

  /** The trees of the components of a resolved coder, in order. */
  function Children(c: Coder): seq<Coder> {
    match c
    case Iterable(e) => [e]
    case Nullable(e) => [e]
    case Tuple(cs) => cs
    case Kv(k, v) => [k, v]
    case _ => []
  }

  function Size(c: Coder): nat {
    match c
    case Iterable(e) => 1 + Size(e)
    case Nullable(e) => 1 + Size(e)
    case Tuple(cs) => 1 + SizeAll(cs)
    case Kv(k, v) => 1 + Size(k) + Size(v)
    case _ => 1
  }

  function SizeAll(cs: seq<Coder>): nat {
    if cs == [] then 0 else Size(cs[0]) + SizeAll(cs[1..])
  }

  lemma {:induction false} SizeOfElement(cs: seq<Coder>, i: nat)
    requires i < |cs|
    ensures Size(cs[i]) <= SizeAll(cs)
  {
    if i == 0 {
    } else {
      SizeOfElement(cs[1..], i - 1);
    }
  }

  lemma {:induction false} SizeOfChild(c: Coder, i: nat)
    requires i < |Children(c)|
    ensures Size(Children(c)[i]) < Size(c)
  {
    if c.Tuple? {
      SizeOfElement(c.components, i);
    }
  }

  /** A coder that resolves is a leaf, or recurses and each component resolves to a child of its tree. */
  lemma {:induction false} ResolvesParts(g: Graph, id: Id, c: Coder)
    requires Resolves(g, id, c)
    ensures Recurses(g, id) <==> LeafFor(Urn(g, id), id).None?
    ensures Recurses(g, id) ==>
              && |Children(c)| == |ComponentsOf(g, id)|
              && forall i :: 0 <= i < |Children(c)| ==> Resolves(g, ComponentsOf(g, id)[i], Children(c)[i])
  {
  }

  /** Conversely, a coder that recurses into components with trees has one. */
  lemma {:induction false} PartsResolve(g: Graph, id: Id)
    requires Recurses(g, id) && forall i :: 0 <= i < |ComponentsOf(g, id)| ==> HasTree(g, ComponentsOf(g, id)[i])
    ensures HasTree(g, id)
  {
    var urn, ids := Urn(g, id), ComponentsOf(g, id);
    var cs := TreesOf(g, ids, |ids|);
    var c := if urn == ITERABLE_URN then Iterable(cs[0]) else if urn == NULLABLE_URN then Nullable(cs[0])
             else if urn == TUPLE_URN then Tuple(cs) else Kv(cs[0], cs[1]);
    assert LeafFor(urn, id).None?;
    assert Resolves(g, id, c);
  }

  lemma {:induction false} TreesOf(g: Graph, ids: seq<Id>, n: nat) returns (cs: seq<Coder>)
    requires n <= |ids| && forall i :: 0 <= i < |ids| ==> HasTree(g, ids[i])
    ensures |cs| == n && TreesAre(g, ids, cs)
  {
    if n == 0 {
      cs := [];
    } else {
      var init := TreesOf(g, ids, n - 1);
      assert HasTree(g, ids[n - 1]);
      var c :| Resolves(g, ids[n - 1], c);
      TreesAreSnoc(g, ids, init, c);
      cs := init + [c];
    }
  }

  /** The first ids resolve to the trees `cs`. */
  ghost predicate TreesAre(g: Graph, ids: seq<Id>, cs: seq<Coder>) {
    |cs| <= |ids| && forall i :: 0 <= i < |cs| ==> Resolves(g, ids[i], cs[i])
  }

  lemma TreesAreSnoc(g: Graph, ids: seq<Id>, cs: seq<Coder>, c: Coder)
    requires TreesAre(g, ids, cs) && |cs| < |ids| && Resolves(g, ids[|cs|], c)
    ensures TreesAre(g, ids, cs + [c])
  {
    var longer := cs + [c];
    forall i | 0 <= i < |longer|
      ensures Resolves(g, ids[i], longer[i])
    {
      if i < |cs| {
        assert longer[i] == cs[i];
      } else {
        assert longer[i] == c;
      }
    }
  }

  /** What resolves after the rewrite, new wrappers apart, resolved before. */
  lemma {:induction false} ResolvedBefore(g: Graph, id: Id, d: Coder)
    requires NoneCaptured(g) && Resolves(Rewrite(g), id, d) && (id in g || id !in Wrappers(g))
    ensures HasTree(g, id)
    decreases Size(d)
  {
    var h := Rewrite(g);
    UrnOfRewritten(g, id);
    ResolvesParts(h, id, d);
    if LeafFor(Urn(g, id), id).Some? {
      assert Resolves(g, id, LeafFor(Urn(g, id), id).value);
    } else {
      assert id in g;
      RecursesAfter(g, id);
      forall i | 0 <= i < |g[id].components|
        ensures HasTree(g, g[id].components[i])
      {
        var x := g[id].components[i];
        if x in Leaves(g) {
          assert Resolves(g, x, Pickle);
        } else {
          SizeOfChild(d, i);
          ResolvedBefore(g, x, Children(d)[i]);
        }
      }
      PartsResolve(g, id);
    }
  }

  /** The size of the tree an id resolves to. */
  ghost function TreeSize(g: Graph, id: Id): nat {
    if HasTree(g, id) then
      var c :| Resolves(g, id, c);
      Size(c)
    else 0
  }

  lemma TreeSizeIs(g: Graph, id: Id, c: Coder)
    requires Resolves(g, id, c)
    ensures TreeSize(g, id) == Size(c)
  {
    var d :| Resolves(g, id, d) && TreeSize(g, id) == Size(d);
    ResolvesOnce(g, id, c, d);
  }

  ghost predicate TreesSurvive(g: Graph) {
    forall id :: HasTree(g, id) ==> HasTree(Rewrite(g), id)
  }

  lemma {:induction false} SurvivingTreesRank(g: Graph)
    requires NoneCaptured(g) && TreesSurvive(g)
    ensures RanksTrees(g, id => TreeSize(Rewrite(g), id))
  {
    var h := Rewrite(g);
    forall id, i | id in g && HasTree(g, id) && Recurses(g, id) && 0 <= i < |g[id].components|
      ensures var x := Stand(g, id, g[id].components[i]);
              HasTree(g, x) && TreeSize(h, x) < TreeSize(h, id)
    {
      StandSurvives(g, id, i);
    }
  }

  lemma {:induction false} StandSurvives(g: Graph, id: Id, i: nat)
    requires NoneCaptured(g) && id in g && HasTree(g, id) && Recurses(g, id) && i < |g[id].components|
    requires HasTree(Rewrite(g), id)
    ensures var x := Stand(g, id, g[id].components[i]);
            HasTree(g, x) && TreeSize(Rewrite(g), x) < TreeSize(Rewrite(g), id)
  {
    var h, x := Rewrite(g), g[id].components[i];
    var d :| Resolves(h, id, d);
    RecursesAfter(g, id);
    ResolvesParts(h, id, d);
    SizeOfChild(d, i);
    TreeSizeIs(h, id, d);
    var y := After(g, id, x);
    assert Resolves(h, y, Children(d)[i]);
    TreeSizeIs(h, y, Children(d)[i]);
    AfterStands(g, id, x);
    if y == Stand(g, id, x) {
      ResolvedBefore(g, y, Children(d)[i]);
    } else {
      assert Stand(g, id, x) == x && x in Leaves(g);
      LeafIsSmall(g, x);
    }
  }

  lemma {:induction false} LeafIsSmall(g: Graph, x: Id)
    requires x in Leaves(g)
    ensures HasTree(g, x) && TreeSize(Rewrite(g), x) == 1
  {
    UrnOfRewritten(g, x);
    assert Resolves(g, x, Pickle) && Resolves(Rewrite(g), x, Pickle);
    TreeSizeIs(Rewrite(g), x, Pickle);
  }

  lemma {:induction false} RankedTreesSurvive(g: Graph, rank: Id -> nat, id: Id)
    requires RanksTrees(g, rank) && HasTree(g, id)
    ensures HasTree(Rewrite(g), id)
    decreases rank(id)
  {
    var h := Rewrite(g);
    var c :| Resolves(g, id, c);
    if id in Wrappers(g) && id !in g {
      NewWrapperDoesNotRecurse(g, id);
    } else {
      UrnOfRewritten(g, id);
      ResolvesParts(g, id, c);
      if LeafFor(Urn(g, id), id).Some? {
        assert Resolves(h, id, c);
      } else {
        assert id in g;
        RecursesAfter(g, id);
        forall i | 0 <= i < |h[id].components|
          ensures HasTree(h, h[id].components[i])
        {
          var x, y := g[id].components[i], h[id].components[i];
          AfterStands(g, id, x);
          if y in Wrappers(g) && y !in g {
            NewWrapperDoesNotRecurse(g, y);
          } else {
            RankedTreesSurvive(g, rank, y);
          }
        }
        PartsResolve(h, id);
      }
    }
  }

  /**
   Every id that resolved still resolves after the rewrite exactly when, in the original map,
   no coder that resolves comes to use one that does not, or itself, by way of a taken
   wrapper name.
   */
  lemma ResolutionSurvivesIff(g: Graph)
    requires NoneCaptured(g)
    ensures TreesSurvive(g) <==> exists rank: Id -> nat :: RanksTrees(g, rank)
  {
    if TreesSurvive(g) {
      SurvivingTreesRank(g);
    }
    if rank: Id -> nat :| RanksTrees(g, rank) {
      forall id | HasTree(g, id)
        ensures HasTree(Rewrite(g), id)
      {
        RankedTreesSurvive(g, rank, id);
      }
    }
  }

  /** Conversely every tree resolved after the rewrite is the wrapping of one resolved before. */
  lemma {:induction false} RewriteAddsNoMeaning(g: Graph, id: Id, d: Coder) returns (c: Coder)
    requires NoCollision(g) && Closed(g) && (forall x :: x in g ==> g[x].spec.Some?) && id in g
    requires Resolves(Rewrite(g), Remap(Leaves(g), id), d)
    ensures Resolves(g, id, c) && d == WrapPickles(c)
    decreases d, 1
  {
    if id in Leaves(g) {
      UrnOfWrapper(g, id);
      c := Pickle;
    } else {
      if id in Wrappers(g) || LeafFor(Urn(g, id), id).Some? {
        LeafAddsNoMeaning(g, id, d);
        c := d;
      } else {
        c := CompositeAddsNoMeaning(g, id, d);
      }
    }
  }

  lemma {:induction false} LeafAddsNoMeaning(g: Graph, id: Id, d: Coder)
    requires NoCollision(g) && id in g && id !in Leaves(g) && g[id].spec.Some?
    requires (id in Wrappers(g) || LeafFor(Urn(g, id), id).Some?) && Resolves(Rewrite(g), id, d)
    ensures Resolves(g, id, d) && d == WrapPickles(d)
  {
    UrnOfRewritten(g, id);
    assert LeafFor(Urn(g, id), id).Some? && Urn(g, id) != PICKLE_URN;
  }

  lemma {:induction false} CompositeAddsNoMeaning(g: Graph, id: Id, d: Coder) returns (c: Coder)
    requires NoCollision(g) && Closed(g) && (forall x :: x in g ==> g[x].spec.Some?) && id in g
    requires id !in Leaves(g) && id !in Wrappers(g) && LeafFor(Urn(g, id), id).None? && Resolves(Rewrite(g), id, d)
    ensures Resolves(g, id, c) && d == WrapPickles(c)
    decreases d, 0
  {
    UrnOfRewritten(g, id);
    var ids := ComponentsOf(g, id);
    if d.Iterable? {
      var x := RewriteAddsNoMeaning(g, ids[0], d.element);
      c := Iterable(x);
    } else if d.Nullable? {
      var x := RewriteAddsNoMeaning(g, ids[0], d.inner);
      c := Nullable(x);
    } else if d.Kv? {
      var x := RewriteAddsNoMeaning(g, ids[0], d.keyCoder);
      var y := RewriteAddsNoMeaning(g, ids[1], d.valueCoder);
      c := Kv(x, y);
    } else {
      var cs := RewriteAddsNoTuple(g, ids, d.components, |ids|);
      c := Tuple(cs);
      assert WrapAll(cs) == d.components;
    }
  }

  /** The trees `cs` are what the first ids resolve to, and their wrappings are `ds`. */
  ghost predicate TreesFor(g: Graph, ids: seq<Id>, ds: seq<Coder>, cs: seq<Coder>) {
    && TreesAre(g, ids, cs) && |ids| == |ds|
    && forall i :: 0 <= i < |cs| ==> ds[i] == WrapPickles(cs[i])
  }

  lemma TreesForSnoc(g: Graph, ids: seq<Id>, ds: seq<Coder>, cs: seq<Coder>, c: Coder)
    requires TreesFor(g, ids, ds, cs) && |cs| < |ids|
    requires Resolves(g, ids[|cs|], c) && ds[|cs|] == WrapPickles(c)
    ensures TreesFor(g, ids, ds, cs + [c])
  {
    TreesAreSnoc(g, ids, cs, c);
  }

  lemma {:induction false} RewriteAddsNoTuple(g: Graph, ids: seq<Id>, ds: seq<Coder>, n: nat) returns (cs: seq<Coder>)
    requires NoCollision(g) && Closed(g) && (forall x :: x in g ==> g[x].spec.Some?)
    requires n <= |ids| == |ds| && forall i :: 0 <= i < |ids| ==>
               ids[i] in g && Resolves(Rewrite(g), Remap(Leaves(g), ids[i]), ds[i])
    ensures |cs| == n && TreesFor(g, ids, ds, cs)
    decreases ds, 0, n
  {
    if n == 0 {
      cs := [];
    } else {
      var init := RewriteAddsNoTuple(g, ids, ds, n - 1);
      var c := RewriteAddsNoMeaning(g, ids[n - 1], ds[n - 1]);
      TreesForSnoc(g, ids, ds, init, c);
      cs := init + [c];
    }
  }

  // ----- the loops -----

  /** The coder map the rewrite updates in place. */
  class CoderMap {
    var coders: Graph

    constructor (g: Graph)
      ensures coders == g
    {
      coders := g;
    }

    /** Visits leaves and entries in an arbitrary order, as a hash map does. */
    method LengthPrefixPickledLeaves()
      modifies this
      ensures coders == Rewrite(old(coders))
    {
      ghost var g := coders;
      var leafIds := set id | id in coders && IsPickledLeaf(coders, id);
      assert leafIds == Leaves(g);
      if leafIds == {} {
        NothingToRewrite(g);
        return;
      }
      AddWrappers(leafIds);
      var wrapperIds := set id | id in leafIds :: Lp(id);
      Repoint(leafIds, wrapperIds);
      RewriteInSteps(g);
      assert coders == Rewrite(g);
    }

    method AddWrappers(leafIds: set<Id>)
      modifies this
      ensures coders == Extended(old(coders), leafIds)
    {
      ghost var g := coders;
      var todo := leafIds;
      assert Extended(g, {}) == g;
      while todo != {}
        invariant todo <= leafIds && coders == Extended(g, leafIds - todo)
        decreases |todo|
      {
        var leaf :| leaf in todo;
        ghost var done := leafIds - todo;
        ExtendStep(g, done, leaf);
        todo := todo - {leaf};
        assert leafIds - todo == done + {leaf};
        if Lp(leaf) !in coders {
          coders := coders[Lp(leaf) := WrapperFor(leaf)];
        }
      }
      assert leafIds - {} == leafIds;
    }

    method Repoint(leafIds: set<Id>, wrapperIds: set<Id>)
      modifies this
      ensures coders.Keys == old(coders).Keys
      ensures forall id :: id in coders ==> coders[id] == Repointed(leafIds, wrapperIds, id, old(coders)[id])
    {
      ghost var before := coders;
      var todo := coders.Keys;
      while todo != {}
        invariant todo <= coders.Keys && coders.Keys == before.Keys
        invariant forall id :: id in coders ==>
                    coders[id] == if id in todo then before[id] else Repointed(leafIds, wrapperIds, id, before[id])
        decreases |todo|
      {
        var id :| id in todo;
        if id !in wrapperIds {
          var components := RemapComponents(leafIds, coders[id].components);
          coders := coders[id := coders[id].(components := components)];
        }
        todo := todo - {id};
      }
    }
  }

  /** The map with the wrappers of `leaves` added where their names are free. */
  function Extended(g: Graph, leaves: set<Id>): Graph {
    map id | id in g.Keys + (set leaf | leaf in leaves :: Lp(leaf)) ::
      if id in g then g[id] else WrapperFor(Stem(id))
  }

  function Repointed(leaves: set<Id>, wrappers: set<Id>, id: Id, entry: Proto): Proto {
    if id in wrappers then entry else entry.(components := RemapAll(leaves, entry.components))
  }

  lemma NothingToRewrite(g: Graph)
    requires Leaves(g) == {}
    ensures Rewrite(g) == g
  {
    assert Wrappers(g) == {};
    forall id | id in g
      ensures Rewrite(g)[id] == g[id]
    {
      assert RemapAll({}, g[id].components) == g[id].components;
    }
  }

  lemma ExtendStep(g: Graph, leaves: set<Id>, leaf: Id)
    ensures var h := Extended(g, leaves);
            Extended(g, leaves + {leaf}) == if Lp(leaf) in h then h else h[Lp(leaf) := WrapperFor(leaf)]
  {
    StemOfLp(leaf);
    var h, k := Extended(g, leaves), Extended(g, leaves + {leaf});
    assert (set x | x in leaves + {leaf} :: Lp(x)) == (set x | x in leaves :: Lp(x)) + {Lp(leaf)};
    assert k.Keys == h.Keys + {Lp(leaf)};
    assert forall id :: id in h ==> k[id] == h[id];
    assert Lp(leaf) !in h ==> k[Lp(leaf)] == WrapperFor(leaf);
  }

  lemma RewriteInSteps(g: Graph)
    ensures var h := Extended(g, Leaves(g));
            && Rewrite(g).Keys == h.Keys
            && forall id :: id in h ==> Rewrite(g)[id] == Repointed(Leaves(g), Wrappers(g), id, h[id])
  {
  }

  method RemapComponents(leafIds: set<Id>, ids: seq<Id>) returns (out: seq<Id>)
    ensures out == RemapAll(leafIds, ids)
  {
    out := ids;
    var i := 0;
    while i < |ids|
      invariant 0 <= i <= |ids| == |out|
      invariant forall j :: 0 <= j < i ==> out[j] == Remap(leafIds, ids[j])
      invariant forall j :: i <= j < |ids| ==> out[j] == ids[j]
    {
      if out[i] in leafIds {
        out := out[i := Lp(out[i])];
      }
      i := i + 1;
    }
  }
}
