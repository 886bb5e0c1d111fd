/**
 Splittable work over a range of blocks: bundles claim blocks one by one while the
 runner splits their restrictions and schedules the residuals as new bundles.
 */
module DynamicSplit {
  import opened Bytes

  // ----- the protocol -----

  /** An offset range waiting for a bundle. */
  datatype Range = Range(start: int, stop: int)

  /** A running bundle: its tracker's restriction and the next block its loop will try. */
  datatype Segment = Segment(start: int, next: int, stop: int)

  datatype State = State(claims: seq<int>, live: seq<Segment>, pending: seq<Range>)

  /** One job element is one restriction over all blocks. */
  function Init(blocks: nat): State {
    State([], [], [Range(0, blocks)])
  }

  datatype Action =
    | Begin(j: nat)          // the runner schedules a pending range as a bundle
    | Claim(i: nat)          // try_claim succeeds and the block is logged
    | Split(i: nat, at: int) // the runner asks for a split, beyond the last claim
    | Finish(i: nat)         // try_claim fails and the bundle ends

  predicate Enabled(s: State, a: Action) {
    match a
    case Begin(j) => j < |s.pending|
    case Claim(i) => i < |s.live| && s.live[i].next < s.live[i].stop
    case Split(i, at) => i < |s.live| && s.live[i].next <= at < s.live[i].stop
    case Finish(i) => i < |s.live| && s.live[i].next >= s.live[i].stop
  }

  function Without<T>(xs: seq<T>, i: nat): seq<T>
    requires i < |xs|
  {
    xs[..i] + xs[i + 1..]
  }

  function Apply(s: State, a: Action): State
    requires Enabled(s, a)
  {
    match a
    case Begin(j) =>
      var r := s.pending[j];
      s.(live := s.live + [Segment(r.start, r.start, r.stop)], pending := Without(s.pending, j))
    case Claim(i) =>
      var g := s.live[i];
      s.(claims := s.claims + [g.next], live := s.live[i := g.(next := g.next + 1)])
    case Split(i, at) =>
      var g := s.live[i];
      s.(live := s.live[i := g.(stop := at)], pending := s.pending + [Range(at, g.stop)])
    case Finish(i) => s.(live := Without(s.live, i))
  }

  ghost predicate Run(s: State, actions: seq<Action>, t: State)
    decreases |actions|
  {
    if actions == [] then s == t
    else Enabled(s, actions[0]) && Run(Apply(s, actions[0]), actions[1..], t)
  }

  // ----- the partition -----

  /** How often block `b` occurs among the blocks from `lo` up to `hi`. */
  function InRange(lo: int, hi: int, b: int): nat {
    if lo <= b < hi then 1 else 0
  }

  function Claimed(claims: seq<int>, b: int): nat {
    if claims == [] then 0 else (if claims[0] == b then 1 else 0) + Claimed(claims[1..], b)
  }

  /** How often `b` is left to claim in running bundles. */
  function LiveWork(live: seq<Segment>, b: int): nat {
    if live == [] then 0 else InRange(live[0].next, live[0].stop, b) + LiveWork(live[1..], b)
  }

  function PendingWork(pending: seq<Range>, b: int): nat {
    if pending == [] then 0 else InRange(pending[0].start, pending[0].stop, b) + PendingWork(pending[1..], b)
  }

  function Occurrences(s: State, b: int): nat {
    Claimed(s.claims, b) + LiveWork(s.live, b) + PendingWork(s.pending, b)
  }

  /** Claimed blocks, the unclaimed parts of running bundles and the pending ranges divide the job exactly. */
  ghost predicate Partition(s: State, blocks: nat) {
    forall b :: Occurrences(s, b) == InRange(0, blocks, b)
  }

  lemma {:induction false} ClaimedConcat(xs: seq<int>, ys: seq<int>, b: int)
    ensures Claimed(xs + ys, b) == Claimed(xs, b) + Claimed(ys, b)
    decreases |xs|
  {
    if xs == [] {
      assert xs + ys == ys;
    } else {
      assert (xs + ys)[1..] == xs[1..] + ys;
      ClaimedConcat(xs[1..], ys, b);
    }
  }

  lemma {:induction false} LiveWithout(live: seq<Segment>, i: nat, b: int)
    requires i < |live|
    ensures LiveWork(live, b) == InRange(live[i].next, live[i].stop, b) + LiveWork(Without(live, i), b)
    decreases |live|
  {
    if i == 0 {
      assert Without(live, 0) == live[1..];
    } else {
      LiveWithout(live[1..], i - 1, b);
      assert Without(live, i)[1..] == Without(live[1..], i - 1);
      assert Without(live, i)[0] == live[0];
    }
  }

  lemma LiveUpdate(live: seq<Segment>, i: nat, g: Segment, b: int)
    requires i < |live|
    ensures LiveWork(live[i := g], b) == InRange(g.next, g.stop, b) + LiveWork(Without(live, i), b)
  {
    LiveWithout(live[i := g], i, b);
    assert Without(live[i := g], i) == Without(live, i);
  }

  lemma LiveAppend(live: seq<Segment>, g: Segment, b: int)
    ensures LiveWork(live + [g], b) == LiveWork(live, b) + InRange(g.next, g.stop, b)
  {
    LiveWithout(live + [g], |live|, b);
    assert Without(live + [g], |live|) == live;
  }

  lemma {:induction false} PendingWithout(pending: seq<Range>, j: nat, b: int)
    requires j < |pending|
    ensures PendingWork(pending, b) ==
            InRange(pending[j].start, pending[j].stop, b) + PendingWork(Without(pending, j), b)
    decreases |pending|
  {
    if j == 0 {
      assert Without(pending, 0) == pending[1..];
    } else {
      PendingWithout(pending[1..], j - 1, b);
      assert Without(pending, j)[1..] == Without(pending[1..], j - 1);
      assert Without(pending, j)[0] == pending[0];
    }
  }

  lemma PendingAppend(pending: seq<Range>, r: Range, b: int)
    ensures PendingWork(pending + [r], b) == PendingWork(pending, b) + InRange(r.start, r.stop, b)
  {
    PendingWithout(pending + [r], |pending|, b);
    assert Without(pending + [r], |pending|) == pending;
  }

  /** No step creates, loses or duplicates a block. */
  lemma StepConserves(s: State, a: Action, b: int)
    requires Enabled(s, a)
    ensures Occurrences(Apply(s, a), b) == Occurrences(s, b)
  {
    match a
    case Begin(j) =>
      var r := s.pending[j];
      PendingWithout(s.pending, j, b);
      LiveAppend(s.live, Segment(r.start, r.start, r.stop), b);
    case Claim(i) =>
      var g := s.live[i];
      LiveWithout(s.live, i, b);
      LiveUpdate(s.live, i, g.(next := g.next + 1), b);
      ClaimedConcat(s.claims, [g.next], b);
    case Split(i, at) =>
      var g := s.live[i];
      LiveWithout(s.live, i, b);
      LiveUpdate(s.live, i, g.(stop := at), b);
      PendingAppend(s.pending, Range(at, g.stop), b);
    case Finish(i) => LiveWithout(s.live, i, b);
  }

  lemma {:induction false} RunConserves(s: State, actions: seq<Action>, t: State, b: int)
    requires Run(s, actions, t)
    ensures Occurrences(t, b) == Occurrences(s, b)
    decreases |actions|
  {
    if actions == [] {
    } else {
      StepConserves(s, actions[0], b);
      RunConserves(Apply(s, actions[0]), actions[1..], t, b);
    }
  }

  /** In every interleaving, claims, live work and residuals partition the blocks. */
  lemma ReachablePartition(blocks: nat, actions: seq<Action>, t: State)
    requires Run(Init(blocks), actions, t)
    ensures Partition(t, blocks)
  {
    forall b
      ensures Occurrences(t, b) == InRange(0, blocks, b)
    {
      RunConserves(Init(blocks), actions, t, b);
      assert PendingWork(Init(blocks).pending, b) == InRange(0, blocks, b);
    }
  }

  lemma {:induction false} ClaimedTwice(claims: seq<int>, i: nat, j: nat)
    requires i < j < |claims| && claims[i] == claims[j]
    ensures Claimed(claims, claims[i]) >= 2
  {
    var b := claims[i];
    assert claims == claims[..j] + claims[j..];
    ClaimedConcat(claims[..j], claims[j..], b);
    ClaimedOnce(claims[..j], i);
  }

  lemma {:induction false} ClaimedOnce(claims: seq<int>, i: nat)
    requires i < |claims|
    ensures Claimed(claims, claims[i]) >= 1
  {
    if i == 0 {
    } else {
      ClaimedOnce(claims[1..], i - 1);
    }
  }

  /** No block is ever claimed twice, and none outside the job. */
  lemma NeverClaimedTwice(blocks: nat, actions: seq<Action>, t: State, i: nat)
    requires Run(Init(blocks), actions, t) && i < |t.claims|
    ensures 0 <= t.claims[i] < blocks
    ensures forall j :: 0 <= j < |t.claims| && t.claims[j] == t.claims[i] ==> j == i
  {
    ReachablePartition(blocks, actions, t);
    var b := t.claims[i];
    assert Occurrences(t, b) == InRange(0, blocks, b);
    ClaimedOnce(t.claims, i);
    forall j | 0 <= j < |t.claims| && t.claims[j] == b
      ensures j == i
    {
      if i < j {
        ClaimedTwice(t.claims, i, j);
      } else if j < i {
        ClaimedTwice(t.claims, j, i);
      }
    }
  }

  // ----- the final check -----

  function InsertSorted(x: int, s: seq<int>): seq<int> {
    if s == [] || x <= s[0] then [x] + s else [s[0]] + InsertSorted(x, s[1..])
  }

  /** Python's `sorted`. */
  function Sorted(s: seq<int>): seq<int> {
    if s == [] then [] else InsertSorted(s[0], Sorted(s[1..]))
  }

  function RangeSeq(lo: int, hi: int): (s: seq<int>)
    ensures |s| == if lo <= hi then hi - lo else 0
    ensures forall i :: 0 <= i < |s| ==> s[i] == lo + i
    decreases hi - lo
  {
    if lo >= hi then [] else [lo] + RangeSeq(lo + 1, hi)
  }

  /** `verify_claims`. */
  predicate VerifyClaims(claims: seq<int>, blocks: nat) {
    Sorted(claims) == RangeSeq(0, blocks)
  }

  predicate IsSorted(s: seq<int>) {
    forall i, j :: 0 <= i < j < |s| ==> s[i] <= s[j]
  }

  lemma {:induction false} InsertSortedSpec(x: int, s: seq<int>)
    requires IsSorted(s)
    ensures IsSorted(InsertSorted(x, s))
    ensures InsertSorted(x, s)[0] == if s == [] || x <= s[0] then x else s[0]
    ensures forall b :: Claimed(InsertSorted(x, s), b) == Claimed(s, b) + (if x == b then 1 else 0)
  {
    if s != [] && x > s[0] {
      InsertSortedSpec(x, s[1..]);
      var t := InsertSorted(x, s[1..]);
      SortedCons(s[0], t);
      assert ([s[0]] + t)[1..] == t;
    } else {
      SortedCons(x, s);
      assert ([x] + s)[1..] == s;
    }
  }

  lemma SortedCons(x: int, s: seq<int>)
    requires IsSorted(s) && (s == [] || x <= s[0])
    ensures IsSorted([x] + s)
  {
  }

  lemma {:induction false} SortedSpec(s: seq<int>)
    ensures IsSorted(Sorted(s)) && forall b :: Claimed(Sorted(s), b) == Claimed(s, b)
  {
    if s == [] {
    } else {
      SortedSpec(s[1..]);
      InsertSortedSpec(s[0], Sorted(s[1..]));
    }
  }

  lemma {:induction false} ClaimedOccurs(s: seq<int>, b: int) returns (i: nat)
    requires Claimed(s, b) > 0
    ensures i < |s| && s[i] == b
  {
    if s[0] == b {
      i := 0;
    } else {
      i := ClaimedOccurs(s[1..], b);
      i := i + 1;
    }
  }

  /** Sorted sequences with the same counts are the same. */
  lemma {:induction false} SortedUnique(a: seq<int>, b: seq<int>)
    requires IsSorted(a) && IsSorted(b) && forall x :: Claimed(a, x) == Claimed(b, x)
    ensures a == b
    decreases |a|
  {
    assert a != [] ==> Claimed(a, a[0]) > 0;
    assert b != [] ==> Claimed(b, b[0]) > 0;
    if a == [] || b == [] {
    } else {
      var i := ClaimedOccurs(b, a[0]);
      var j := ClaimedOccurs(a, b[0]);
      assert a[0] == b[0];
      forall x
        ensures Claimed(a[1..], x) == Claimed(b[1..], x)
      {
        assert Claimed(a, x) == Claimed(b, x);
      }
      SortedUnique(a[1..], b[1..]);
      assert a == [a[0]] + a[1..] && b == [b[0]] + b[1..];
    }
  }

  lemma {:induction false} ClaimedInRange(lo: int, hi: int, b: int)
    ensures Claimed(RangeSeq(lo, hi), b) == InRange(lo, hi, b)
    decreases hi - lo
  {
    if lo >= hi {
    } else {
      ClaimedInRange(lo + 1, hi, b);
      assert RangeSeq(lo, hi)[1..] == RangeSeq(lo + 1, hi);
    }
  }

  /** `verify_claims` accepts exactly the logs that hold every block once and nothing else. */
  lemma VerifiesIffEveryBlockOnce(claims: seq<int>, blocks: nat)
    ensures VerifyClaims(claims, blocks) <==> forall b :: Claimed(claims, b) == InRange(0, blocks, b)
  {
    SortedSpec(claims);
    forall b
      ensures Claimed(RangeSeq(0, blocks), b) == InRange(0, blocks, b)
    {
      ClaimedInRange(0, blocks, b);
    }
    if forall b :: Claimed(claims, b) == InRange(0, blocks, b) {
      SortedUnique(Sorted(claims), RangeSeq(0, blocks));
    }
  }

  function Unclaimed(s: State, b: int): nat {
    LiveWork(s.live, b) + PendingWork(s.pending, b)
  }

  ghost predicate NoWorkLeft(s: State) {
    forall b :: Unclaimed(s, b) == 0
  }

  /** In every reachable state `verify_claims` passes exactly when no block is left to claim, as at quiescence. */
  lemma VerifiesIffNoWorkLeft(blocks: nat, actions: seq<Action>, t: State)
    requires Run(Init(blocks), actions, t)
    ensures VerifyClaims(t.claims, blocks) <==> NoWorkLeft(t)
    ensures t.live == [] && t.pending == [] ==> NoWorkLeft(t)
  {
    ReachablePartition(blocks, actions, t);
    VerifiesIffEveryBlockOnce(t.claims, blocks);
    forall b
      ensures Claimed(t.claims, b) == InRange(0, blocks, b) <==> Unclaimed(t, b) == 0
    {
      assert Occurrences(t, b) == InRange(0, blocks, b);
    }
  }

  // ----- completion -----

  ghost predicate Reaches(s: State, t: State) {
    exists actions :: Run(s, actions, t)
  }

  lemma ReachesItself(s: State)
    ensures Reaches(s, s)
  {
    assert Run(s, [], s);
  }

  lemma ReachesOneMore(s: State, t: State, a: Action)
    requires Reaches(s, t) && Enabled(t, a)
    ensures Reaches(s, Apply(t, a))
  {
    var actions :| Run(s, actions, t);
    RunExtends(s, actions, t, a);
  }

  lemma {:induction false} RunExtends(s: State, actions: seq<Action>, t: State, a: Action)
    requires Run(s, actions, t) && Enabled(t, a)
    ensures Run(s, actions + [a], Apply(t, a))
    decreases |actions|
  {
    if actions != [] {
      RunExtends(Apply(s, actions[0]), actions[1..], t, a);
      assert (actions + [a])[1..] == actions[1..] + [a];
    } else {
      assert (actions + [a])[1..] == [];
    }
  }

  lemma {:induction false} RunConcat(s: State, actions: seq<Action>, t: State, more: seq<Action>, u: State)
    requires Run(s, actions, t) && Run(t, more, u)
    ensures Run(s, actions + more, u)
    decreases |actions|
  {
    if actions == [] {
      assert actions + more == more;
    } else {
      RunConcat(Apply(s, actions[0]), actions[1..], t, more, u);
      assert (actions + more)[1..] == actions[1..] + more;
    }
  }

  function Length(lo: int, hi: int): nat {
    if lo < hi then hi - lo else 0
  }

  /** The steps that claiming and finishing running bundles takes. */
  function LiveSteps(live: seq<Segment>): nat {
    if live == [] then 0 else Length(live[0].next, live[0].stop) + 1 + LiveSteps(live[1..])
  }

  function PendingSteps(pending: seq<Range>): nat {
    if pending == [] then 0 else Length(pending[0].start, pending[0].stop) + 2 + PendingSteps(pending[1..])
  }

  predicate Quiescent(s: State) {
    s.live == [] && s.pending == []
  }

  /** The next step of a run that finishes the first bundle before it begins another. */
  function NextStep(s: State): (a: Action)
    requires !Quiescent(s)
    ensures Enabled(s, a)
  {
    if s.live == [] then Begin(0)
    else if s.live[0].next < s.live[0].stop then Claim(0)
    else Finish(0)
  }

  lemma NextStepProgresses(s: State)
    requires !Quiescent(s)
    ensures var t := Apply(s, NextStep(s));
            LiveSteps(t.live) + PendingSteps(t.pending) + 1 == LiveSteps(s.live) + PendingSteps(s.pending)
  {
    if s.live == [] {
      var r := s.pending[0];
      assert Without(s.pending, 0) == s.pending[1..];
      assert s.live + [Segment(r.start, r.start, r.stop)] == [Segment(r.start, r.start, r.stop)];
    } else if s.live[0].next < s.live[0].stop {
      var g := s.live[0];
      assert s.live[0 := g.(next := g.next + 1)][1..] == s.live[1..];
    } else {
      assert Without(s.live, 0) == s.live[1..];
    }
  }

  lemma {:induction false} CanQuiesce(s: State) returns (actions: seq<Action>, t: State)
    ensures Run(s, actions, t) && Quiescent(t)
    decreases LiveSteps(s.live) + PendingSteps(s.pending)
  {
    if Quiescent(s) {
      actions, t := [], s;
    } else {
      NextStepProgresses(s);
      var rest;
      rest, t := CanQuiesce(Apply(s, NextStep(s)));
      actions := [NextStep(s)] + rest;
      assert actions[1..] == rest;
    }
  }

  /** However the job has been split so far, it can be finished, and `verify_claims` accepts every way to finish it. */
  lemma EveryRunCanComplete(blocks: nat, actions: seq<Action>, t: State) returns (more: seq<Action>, u: State)
    requires Run(Init(blocks), actions, t)
    ensures Run(t, more, u) && Quiescent(u)
    ensures forall rest, v :: Run(t, rest, v) && Quiescent(v) ==> VerifyClaims(v.claims, blocks)
  {
    more, u := CanQuiesce(t);
    forall rest, v | Run(t, rest, v) && Quiescent(v)
      ensures VerifyClaims(v.claims, blocks)
    {
      RunConcat(Init(blocks), actions, t, rest, v);
      VerifiesIffNoWorkLeft(blocks, actions + rest, v);
    }
  }

  // ----- one bundle -----

  /** Beam's offset tracker, as the claim loop and the runner's split requests use it. */
  class Tracker {
    const start: int
    var stop: int
    var lastAttempt: int

    constructor (r: Range)
      requires r.start <= r.stop
      ensures start == r.start && stop == r.stop && lastAttempt == r.start - 1
    {
      start, stop, lastAttempt := r.start, r.stop, r.start - 1;
    }

    /** Offsets are tried in increasing order. */
    method TryClaim(offset: int) returns (ok: bool)
      requires offset > lastAttempt
      modifies this`lastAttempt
      ensures lastAttempt == offset && ok == (offset < stop)
    {
      lastAttempt := offset;
      ok := offset < stop;
    }

    /** A split beyond the last attempt and before the end shrinks the restriction; any other is refused. */
    method TrySplit(at: int) returns (residual: Option<Range>)
      modifies this`stop
      ensures if lastAttempt < at < old(stop) then residual == Some(Range(at, old(stop))) && stop == at
              else residual == None && stop == old(stop)
    {
      if lastAttempt < at < stop {
        residual := Some(Range(at, stop));
        stop := at;
      } else {
        residual := None;
      }
    }
  }

  /** A lone bundle that has claimed up to `next` and handed back `residuals`. */
  function Bundle(start: int, next: int, stop: int, residuals: seq<Range>): State {
    State(RangeSeq(start, next), [Segment(start, next, stop)], residuals)
  }

  /** The residuals hold every block from `lo` up to `hi` once, and no other. */
  ghost predicate HandedBack(residuals: seq<Range>, lo: int, hi: int) {
    forall b :: PendingWork(residuals, b) == InRange(lo, hi, b)
  }

  /**
   `process`, with any number of split requests arriving before each claim. It claims a prefix
   of its range in order, what it does not claim it hands back exactly once, and its
   execution is a run of the protocol from its first step to the end of the bundle.
   */
  method Process(tracker: Tracker, requests: seq<seq<int>>)
    returns (claims: seq<int>, residuals: seq<Range>)
    requires tracker.start <= tracker.stop && tracker.lastAttempt == tracker.start - 1
    modifies tracker
    ensures tracker.start <= tracker.stop <= old(tracker.stop)
    ensures claims == RangeSeq(tracker.start, tracker.stop)
    ensures HandedBack(residuals, tracker.stop, old(tracker.stop))
    ensures Reaches(Bundle(tracker.start, tracker.start, old(tracker.stop), []), State(claims, [], residuals))
  {
    claims, residuals := [], [];
    var offset, k := tracker.start, 0;
    ghost var first, end := tracker.start, tracker.stop;
    ghost var before := Bundle(first, first, end, []);
    ReachesItself(before);
    while true
      invariant first <= offset <= tracker.stop <= end
      invariant tracker.lastAttempt == offset - 1
      invariant claims == RangeSeq(first, offset)
      invariant HandedBack(residuals, tracker.stop, end)
      invariant Reaches(before, Bundle(first, offset, tracker.stop, residuals))
      decreases tracker.stop - offset
    {
      ghost var bound := tracker.stop;
      var j := 0;
      while k < |requests| && j < |requests[k]|
        invariant first <= offset <= tracker.stop <= bound && tracker.lastAttempt == offset - 1
        invariant HandedBack(residuals, tracker.stop, end)
        invariant Reaches(before, Bundle(first, offset, tracker.stop, residuals))
        decreases if k < |requests| then |requests[k]| - j else 0
      {
        ghost var stop := tracker.stop;
        var residual := tracker.TrySplit(requests[k][j]);
        j := j + 1;
        if residual.Some? {
          SplitStep(before, first, offset, stop, residuals, tracker.stop);
          HandBack(residuals, tracker.stop, stop, end);
          residuals := residuals + [residual.value];
        }
      }
      k := k + 1;
      var ok := tracker.TryClaim(offset);
      if !ok {
        FinishStep(before, first, offset, tracker.stop, residuals);
        break;
      }
      ClaimStep(before, first, offset, tracker.stop, residuals);
      RangeExtends(first, offset);
      claims := claims + [offset];
      offset := offset + 1;
    }
  }

  lemma HandBack(residuals: seq<Range>, at: int, stop: int, end: int)
    requires at <= stop <= end && HandedBack(residuals, stop, end)
    ensures HandedBack(residuals + [Range(at, stop)], at, end)
  {
    forall b
      ensures PendingWork(residuals + [Range(at, stop)], b) == InRange(at, end, b)
    {
      PendingAppend(residuals, Range(at, stop), b);
    }
  }

  lemma SplitStep(s: State, start: int, next: int, stop: int, residuals: seq<Range>, at: int)
    requires Reaches(s, Bundle(start, next, stop, residuals)) && next <= at < stop
    ensures Reaches(s, Bundle(start, next, at, residuals + [Range(at, stop)]))
  {
    var t := Bundle(start, next, stop, residuals);
    ReachesOneMore(s, t, Split(0, at));
    assert t.live[0 := Segment(start, next, at)] == [Segment(start, next, at)];
    assert Apply(t, Split(0, at)) == Bundle(start, next, at, residuals + [Range(at, stop)]);
  }

  lemma ClaimStep(s: State, start: int, next: int, stop: int, residuals: seq<Range>)
    requires Reaches(s, Bundle(start, next, stop, residuals)) && start <= next < stop
    ensures Reaches(s, Bundle(start, next + 1, stop, residuals))
  {
    RangeExtends(start, next);
    var t := Bundle(start, next, stop, residuals);
    ReachesOneMore(s, t, Claim(0));
    assert t.live[0 := Segment(start, next + 1, stop)] == [Segment(start, next + 1, stop)];
    assert Apply(t, Claim(0)) == Bundle(start, next + 1, stop, residuals);
  }

  lemma FinishStep(s: State, start: int, next: int, stop: int, residuals: seq<Range>)
    requires Reaches(s, Bundle(start, next, stop, residuals)) && next >= stop
    ensures Reaches(s, State(RangeSeq(start, next), [], residuals))
  {
    var t := Bundle(start, next, stop, residuals);
    ReachesOneMore(s, t, Finish(0));
    assert Without(t.live, 0) == [];
    assert Apply(t, Finish(0)) == State(RangeSeq(start, next), [], residuals);
  }

  lemma {:induction false} RangeExtends(lo: int, hi: int)
    requires lo <= hi
    ensures RangeSeq(lo, hi + 1) == RangeSeq(lo, hi) + [hi]
    decreases hi - lo
  {
    if lo >= hi {
    } else {
      RangeExtends(lo + 1, hi);
    }
  }
}
