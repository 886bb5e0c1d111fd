/**
 Per-key state with a processing-time and an event-time timer: elements are buffered,
 the first timer flushes their count, and the second fires, re-arms once and fires again.
 Setting and delivering timers is Beam's part; the steps below are its contract.
 */
module BufferAndFire {
  import opened Bytes

  type Key = string

  datatype Line = Line(key: Key, count: nat)

  datatype State = State(
    input: seq<Key>,                // the elements processed so far, by key
    buffers: map<Key, seq<string>>, // bag state "buffer"
    armed: set<Key>,                // keys whose bag state "eventArmed" is not empty
    flushSet: set<Key>,             // processing-time timers that are set
    eventSet: set<Key>,             // event-time timers that are set
    atInfinity: bool,               // the source has reported +inf
    flushLog: seq<Line>,            // the output file
    eventLog: seq<Key>)             // the event file

  const INIT := State([], map[], {}, {}, {}, false, [], [])

  function Buffer(s: State, k: Key): seq<string> {
    if k in s.buffers then s.buffers[k] else []
  }

  datatype Action = Process(key: Key, val: string) | ToInfinity | Flush(key: Key) | EventFlush(key: Key)

  /** The watermark reaches +inf only after all input; a timer is delivered when set and due. */
  predicate Enabled(s: State, a: Action) {
    match a
    case Process(_, _) => !s.atInfinity
    case ToInfinity => !s.atInfinity
    case Flush(k) => k in s.flushSet
    case EventFlush(k) => s.atInfinity && k in s.eventSet
  }

  function Apply(s: State, a: Action): State {
    match a
    case Process(k, v) =>
      s.(input := s.input + [k], buffers := s.buffers[k := Buffer(s, k) + [v]],
         flushSet := s.flushSet + {k}, eventSet := s.eventSet + {k})
    case ToInfinity => s.(atInfinity := true)
    case Flush(k) =>
      s.(flushSet := s.flushSet - {k}, flushLog := s.flushLog + [Line(k, |Buffer(s, k)|)],
         buffers := s.buffers[k := []])
    case EventFlush(k) =>
      if k in s.armed then s.(eventSet := s.eventSet - {k}, eventLog := s.eventLog + [k])
      else s.(armed := s.armed + {k}, eventLog := s.eventLog + [k])
  }

  ghost predicate Run(s: State, actions: seq<Action>, t: State)
    decreases |actions|
  {
    if actions == [] then s == t
    else Enabled(s, actions[0]) && Run(Apply(s, actions[0]), actions[1..], t)
  }

  // ----- counting -----

  function Count(keys: seq<Key>, k: Key): nat {
    if keys == [] then 0 else Count(keys[..|keys| - 1], k) + (if keys[|keys| - 1] == k then 1 else 0)
  }

  /** The counts flushed for a key. */
  function Flushed(log: seq<Line>, k: Key): nat {
    if log == [] then 0
    else Flushed(log[..|log| - 1], k) + (if log[|log| - 1].key == k then log[|log| - 1].count else 0)
  }

  /** How often a key was flushed. */
  function Flushes(log: seq<Line>, k: Key): nat {
    if log == [] then 0 else Flushes(log[..|log| - 1], k) + (if log[|log| - 1].key == k then 1 else 0)
  }

  lemma CountSnoc(keys: seq<Key>, x: Key, k: Key)
    ensures Count(keys + [x], k) == Count(keys, k) + (if x == k then 1 else 0)
  {
    assert (keys + [x])[..|keys|] == keys;
  }

  lemma FlushedSnoc(log: seq<Line>, l: Line, k: Key)
    ensures Flushed(log + [l], k) == Flushed(log, k) + (if l.key == k then l.count else 0)
    ensures Flushes(log + [l], k) == Flushes(log, k) + (if l.key == k then 1 else 0)
  {
    assert (log + [l])[..|log|] == log;
  }

  // ----- invariant -----

  /** Conservation: what was processed for `k` was flushed or is still buffered. */
  predicate Conserved(s: State, k: Key) {
    Count(s.input, k) == Flushed(s.flushLog, k) + |Buffer(s, k)|
  }

  /** The processing-time timer is set exactly while something is buffered, so no flush is empty. */
  predicate FlushTimerRight(s: State, k: Key) {
    && (k in s.flushSet <==> Buffer(s, k) != [])
    && Flushes(s.flushLog, k) <= Flushed(s.flushLog, k)
    && (Flushes(s.flushLog, k) == 0 ==> Flushed(s.flushLog, k) == 0)
  }

  /** The event-time timer of a seen key is set until its second firing. */
  predicate EventTimerRight(s: State, k: Key) {
    var fired := Count(s.eventLog, k);
    && fired <= 2
    && (k in s.armed <==> fired >= 1)
    && (k in s.eventSet <==> Count(s.input, k) > 0 && fired < 2)
    && (fired > 0 ==> s.atInfinity && Count(s.input, k) > 0)
  }

  predicate KeyInv(s: State, k: Key) {
    Conserved(s, k) && FlushTimerRight(s, k) && EventTimerRight(s, k)
  }

  lemma ProcessKeepsInv(s: State, x: Key, v: string, k: Key)
    requires !s.atInfinity && KeyInv(s, k)
    ensures KeyInv(Apply(s, Action.Process(x, v)), k)
  {
    var t := Apply(s, Action.Process(x, v));
    CountSnoc(s.input, x, k);
    assert Buffer(t, k) == if x == k then Buffer(s, k) + [v] else Buffer(s, k);
    assert Conserved(t, k) && FlushTimerRight(t, k);
  }

  lemma FlushKeepsInv(s: State, x: Key, k: Key)
    requires x in s.flushSet && KeyInv(s, k)
    ensures KeyInv(Apply(s, Flush(x)), k)
  {
    var t := Apply(s, Flush(x));
    FlushedSnoc(s.flushLog, Line(x, |Buffer(s, x)|), k);
    assert Buffer(t, k) == if x == k then [] else Buffer(s, k);
    assert EventTimerRight(t, k);
    assert Conserved(t, k);
  }

  lemma EventFlushKeepsInv(s: State, x: Key, k: Key)
    requires s.atInfinity && x in s.eventSet && KeyInv(s, k)
    ensures KeyInv(Apply(s, EventFlush(x)), k)
  {
    var t := Apply(s, EventFlush(x));
    CountSnoc(s.eventLog, x, k);
    assert Buffer(t, k) == Buffer(s, k);
    assert Conserved(t, k) && FlushTimerRight(t, k);
  }

  lemma StepKeepsInv(s: State, a: Action, k: Key)
    requires Enabled(s, a) && KeyInv(s, k)
    ensures KeyInv(Apply(s, a), k)
  {
    match a
    case Process(x, v) => ProcessKeepsInv(s, x, v, k);
    case ToInfinity =>
      var t := Apply(s, a);
      assert Buffer(t, k) == Buffer(s, k);
    case Flush(x) => FlushKeepsInv(s, x, k);
    case EventFlush(x) => EventFlushKeepsInv(s, x, k);
  }

  lemma {:induction false} RunKeepsInv(s: State, actions: seq<Action>, t: State, k: Key)
    requires Run(s, actions, t) && KeyInv(s, k)
    ensures KeyInv(t, k)
    decreases |actions|
  {
    if actions == [] {
    } else {
      StepKeepsInv(s, actions[0], k);
      RunKeepsInv(Apply(s, actions[0]), actions[1..], t, k);
    }
  }

  /** In every run, every element is flushed or buffered, exactly once. */
  lemma ElementsConserved(actions: seq<Action>, t: State, k: Key)
    requires Run(INIT, actions, t)
    ensures Count(t.input, k) == Flushed(t.flushLog, k) + |Buffer(t, k)|
  {
    RunKeepsInv(INIT, actions, t, k);
  }

  /** The event timer of a key never fires a third time, and has fired twice once none is left set. */
  lemma FiresExactlyTwice(actions: seq<Action>, t: State, k: Key)
    requires Run(INIT, actions, t)
    ensures Count(t.eventLog, k) <= 2
    ensures k !in t.eventSet && Count(t.input, k) > 0 ==> Count(t.eventLog, k) == 2
    ensures Count(t.input, k) == 0 ==> k !in t.eventSet && Count(t.eventLog, k) == 0
  {
    RunKeepsInv(INIT, actions, t, k);
  }

  // ----- draining -----

  ghost predicate Drained(s: State) {
    s.atInfinity && s.flushSet == {} && s.eventSet == {}
  }

  /** The deliveries left once the input has ended: one per flush timer, two per event timer until it is armed. */
  function Deliveries(s: State): nat {
    |s.flushSet| + |s.eventSet| + |s.eventSet - s.armed|
  }

  lemma DeliveryProgresses(s: State, a: Action)
    requires s.atInfinity && Enabled(s, a)
    ensures Apply(s, a).atInfinity && Deliveries(Apply(s, a)) < Deliveries(s)
  {
    var t := Apply(s, a);
    if a.EventFlush? {
      if a.key in s.armed {
        assert t.eventSet - t.armed == s.eventSet - s.armed;
      } else {
        assert t.eventSet - t.armed == (s.eventSet - s.armed) - {a.key};
      }
    }
  }

  /** Delivering whatever is set, in any order, ends. */
  lemma {:induction false} CanDrain(s: State) returns (actions: seq<Action>, t: State)
    ensures Run(s, actions, t) && Drained(t)
    decreases !s.atInfinity, Deliveries(s)
  {
    if Drained(s) {
      actions, t := [], s;
    } else {
      var a;
      if !s.atInfinity {
        a := ToInfinity;
      } else if s.flushSet != {} {
        var k :| k in s.flushSet;
        a := Flush(k);
        DeliveryProgresses(s, a);
      } else {
        var k :| k in s.eventSet;
        a := EventFlush(k);
        DeliveryProgresses(s, a);
      }
      var rest;
      rest, t := CanDrain(Apply(s, a));
      actions := [a] + rest;
      assert actions[1..] == rest;
    }
  }

  lemma {:induction false} RunConcat(s: State, actions: seq<Action>, t: State, more: seq<Action>, u: State)
    requires Run(s, actions, t) && Run(t, more, u)
    ensures Run(s, actions + more, u)
    decreases |actions|
  {
    if actions == [] {
      assert actions + more == more;
    } else {
      RunConcat(Apply(s, actions[0]), actions[1..], t, more, u);
      assert (actions + more)[1..] == actions[1..] + more;
    }
  }

  /** Every timer delivered: each seen key fired twice, and its flushed counts are its elements. */
  ghost predicate Complete(s: State) {
    forall k ::
      && Count(s.eventLog, k) == (if Count(s.input, k) > 0 then 2 else 0)
      && Flushed(s.flushLog, k) == Count(s.input, k)
  }

  /** No timer is stranded: every run can be drained, and every way to drain it is complete. */
  lemma EveryRunCanDrain(actions: seq<Action>, t: State) returns (more: seq<Action>, u: State)
    requires Run(INIT, actions, t)
    ensures Run(t, more, u) && Drained(u)
    ensures forall rest, v :: Run(t, rest, v) && Drained(v) ==> Complete(v)
  {
    more, u := CanDrain(t);
    forall rest, v | Run(t, rest, v) && Drained(v)
      ensures Complete(v)
    {
      RunConcat(INIT, actions, t, rest, v);
      forall k
        ensures Count(v.eventLog, k) == (if Count(v.input, k) > 0 then 2 else 0)
        ensures Flushed(v.flushLog, k) == Count(v.input, k)
      {
        RunKeepsInv(INIT, actions + rest, v, k);
      }
    }
  }

  // ----- the example's own check -----

  function Get(m: map<Key, nat>, k: Key): nat {
    if k in m then m[k] else 0
  }

  /** The counts of the keys outside `skip`: none is skipped in the input, the empty key in the event file. */
  function Tally(keys: seq<Key>, skip: set<Key>): map<Key, nat> {
    if keys == [] then map[]
    else
      var m, k := Tally(keys[..|keys| - 1], skip), keys[|keys| - 1];
      if k in skip then m else m[k := Get(m, k) + 1]
  }

  /** The flushed counts by key: a line with an empty key is passed over, a repeated key is an error. */
  function ReadFlushes(log: seq<Line>): Option<map<Key, nat>> {
    if log == [] then Some(map[])
    else
      var l := log[|log| - 1];
      match ReadFlushes(log[..|log| - 1])
      case None => None
      case Some(m) =>
        if l.key == "" then Some(m)
        else if l.key in m then None
        else Some(m[l.key := l.count])
  }

  /** The comparison the example ends with. */
  predicate Verify(input: seq<Key>, flushLog: seq<Line>, eventLog: seq<Key>) {
    var expected, actual, firings := Tally(input, {}), ReadFlushes(flushLog), Tally(eventLog, {""});
    && actual.Some? && expected == actual.value
    && (forall k :: k in expected ==> Get(firings, k) == 2)
    && firings.Keys == expected.Keys
  }

  lemma {:induction false} TallyCounts(keys: seq<Key>, skip: set<Key>, k: Key)
    ensures k in Tally(keys, skip) <==> k !in skip && Count(keys, k) > 0
    ensures Get(Tally(keys, skip), k) == if k in skip then 0 else Count(keys, k)
    decreases |keys|
  {
    if keys == [] {
    } else {
      TallyCounts(keys[..|keys| - 1], skip, k);
    }
  }

  lemma {:induction false} ReadFlushesCounts(log: seq<Line>, k: Key)
    requires k != ""
    ensures ReadFlushes(log).Some? ==>
              && Flushes(log, k) <= 1
              && (k in ReadFlushes(log).value <==> Flushes(log, k) == 1)
              && Get(ReadFlushes(log).value, k) == Flushed(log, k)
    decreases |log|
  {
    if log == [] {
    } else {
      var init, l := log[..|log| - 1], log[|log| - 1];
      ReadFlushesCounts(init, k);
      if l.key != "" {
        ReadFlushesCounts(init, l.key);
      }
    }
  }

  lemma {:induction false} ReadFlushesNamed(log: seq<Line>)
    ensures ReadFlushes(log).Some? ==> "" !in ReadFlushes(log).value
    decreases |log|
  {
    if log == [] {
    } else {
      ReadFlushesNamed(log[..|log| - 1]);
    }
  }

  lemma {:induction false} ReadFlushesFails(log: seq<Line>) returns (k: Key)
    requires ReadFlushes(log).None?
    ensures k != "" && Flushes(log, k) >= 2
    decreases |log|
  {
    var init, l := log[..|log| - 1], log[|log| - 1];
    if ReadFlushes(init).None? {
      k := ReadFlushesFails(init);
    } else {
      k := l.key;
      ReadFlushesCounts(init, k);
    }
  }

  /** The processing-time timer of every key fired at most once. */
  ghost predicate FlushedOnce(log: seq<Line>) {
    forall k :: k != "" ==> Flushes(log, k) <= 1
  }

  /** A key is accounted for: flushed once with its count and fired twice if it was seen, neither if not. */
  predicate Accounted(input: seq<Key>, flushLog: seq<Line>, eventLog: seq<Key>, k: Key) {
    var n := Count(input, k);
    && Flushes(flushLog, k) == (if n > 0 then 1 else 0)
    && Flushed(flushLog, k) == n
    && Count(eventLog, k) == (if n > 0 then 2 else 0)
  }

  lemma VerifiedKey(input: seq<Key>, flushLog: seq<Line>, eventLog: seq<Key>, k: Key)
    ensures Verify(input, flushLog, eventLog) && k != "" ==> Accounted(input, flushLog, eventLog, k)
  {
    if Verify(input, flushLog, eventLog) && k != "" {
      var expected, actual, firings := Tally(input, {}), ReadFlushes(flushLog), Tally(eventLog, {""});
      TallyCounts(input, {}, k);
      TallyCounts(eventLog, {""}, k);
      ReadFlushesCounts(flushLog, k);
      assert k in firings <==> k in expected;
      assert Get(expected, k) == Get(actual.value, k);
    }
  }

  ghost predicate AllAccounted(input: seq<Key>, flushLog: seq<Line>, eventLog: seq<Key>) {
    Count(input, "") == 0 && forall k :: k != "" ==> Accounted(input, flushLog, eventLog, k)
  }

  /** `verify` accepts exactly the files in which every key is accounted for and none is empty. */
  lemma VerifiesIffAccounted(input: seq<Key>, flushLog: seq<Line>, eventLog: seq<Key>)
    ensures Verify(input, flushLog, eventLog) <==> AllAccounted(input, flushLog, eventLog)
  {
    TallyCounts(input, {}, "");
    TallyCounts(eventLog, {""}, "");
    ReadFlushesNamed(flushLog);
    if Verify(input, flushLog, eventLog) {
      forall k | k != ""
        ensures Accounted(input, flushLog, eventLog, k)
      {
        VerifiedKey(input, flushLog, eventLog, k);
      }
    } else if AllAccounted(input, flushLog, eventLog) {
      AccountedVerifies(input, flushLog, eventLog);
    }
  }

  lemma AccountedVerifies(input: seq<Key>, flushLog: seq<Line>, eventLog: seq<Key>)
    requires AllAccounted(input, flushLog, eventLog)
    ensures Verify(input, flushLog, eventLog)
  {
    var expected, actual, firings := Tally(input, {}), ReadFlushes(flushLog), Tally(eventLog, {""});
    TallyCounts(input, {}, "");
    TallyCounts(eventLog, {""}, "");
    ReadFlushesNamed(flushLog);
    forall k | k != ""
      ensures Flushes(flushLog, k) <= 1
    {
      assert Accounted(input, flushLog, eventLog, k);
    }
    ReadsWhenFlushedOnce(flushLog);
    forall k
      ensures (k in firings <==> k in expected) && (k in actual.value <==> k in expected)
      ensures Get(actual.value, k) == Get(expected, k) && (k in expected ==> Get(firings, k) == 2)
    {
      if k != "" {
        assert Accounted(input, flushLog, eventLog, k);
        TallyCounts(input, {}, k);
        TallyCounts(eventLog, {""}, k);
        ReadFlushesCounts(flushLog, k);
      }
    }
    SameCounts(expected, actual.value);
  }

  lemma ReadsWhenFlushedOnce(log: seq<Line>)
    requires FlushedOnce(log)
    ensures ReadFlushes(log).Some?
  {
    if ReadFlushes(log).None? {
      var k := ReadFlushesFails(log);
    }
  }

  /** What the maps of a drained state hold for a key that is not empty. */
  lemma DrainedKey(actions: seq<Action>, t: State, k: Key)
    requires Run(INIT, actions, t) && Drained(t) && k != ""
    ensures Get(Tally(t.eventLog, {""}), k) == if k in Tally(t.input, {}) then 2 else 0
    ensures k in Tally(t.eventLog, {""}) <==> k in Tally(t.input, {})
    ensures var actual := ReadFlushes(t.flushLog);
            actual.Some? ==>
              && (k in actual.value <==> k in Tally(t.input, {}))
              && Get(actual.value, k) == Get(Tally(t.input, {}), k)
  {
    RunKeepsInv(INIT, actions, t, k);
    TallyCounts(t.input, {}, k);
    TallyCounts(t.eventLog, {""}, k);
    ReadFlushesCounts(t.flushLog, k);
  }

  /** Maps that give the same count everywhere, over the same keys, are equal. */
  lemma SameCounts(m: map<Key, nat>, n: map<Key, nat>)
    requires forall k :: (k in m <==> k in n) && Get(m, k) == Get(n, k)
    ensures m == n
  {
    forall k | k in m
      ensures k in n && m[k] == n[k]
    {
      assert Get(m, k) == Get(n, k);
    }
  }

  /**
   Once every timer has been delivered, `verify` passes exactly when no input key is
   empty and no key went quiet long enough to be flushed more than once.
   */
  lemma VerifiesIffFlushedOnce(actions: seq<Action>, t: State)
    requires Run(INIT, actions, t) && Drained(t)
    ensures Verify(t.input, t.flushLog, t.eventLog) <==> FlushedOnce(t.flushLog) && Count(t.input, "") == 0
  {
    var expected, actual, firings := Tally(t.input, {}), ReadFlushes(t.flushLog), Tally(t.eventLog, {""});
    TallyCounts(t.input, {}, "");
    TallyCounts(t.eventLog, {""}, "");
    ReadFlushesNamed(t.flushLog);
    if Count(t.input, "") > 0 {
      assert "" in expected && "" !in firings;
    } else if actual.None? {
      var k := ReadFlushesFails(t.flushLog);
    } else {
      forall k
        ensures (k in firings <==> k in expected) && (k in actual.value <==> k in expected)
        ensures Get(actual.value, k) == Get(expected, k) && (k in expected ==> Get(firings, k) == 2)
        ensures k != "" ==> Flushes(t.flushLog, k) <= 1
      {
        if k != "" {
          DrainedKey(actions, t, k);
          ReadFlushesCounts(t.flushLog, k);
        }
      }
      SameCounts(expected, actual.value);
    }
  }

  // ----- when `verify` passes, told from the schedule alone -----

  /** Some element of `k` is processed after a flush of `k`, where `flushed` tells of earlier ones. */
  predicate ElementAfterFlush(actions: seq<Action>, k: Key, flushed: bool) {
    if actions == [] then false
    else
      var a, rest := actions[0], actions[1..];
      || (a.Process? && a.key == k && flushed)
      || ElementAfterFlush(rest, k, flushed || a == Flush(k))
  }

  /** Flushes made plus the one a non-empty buffer waits for. */
  function FlushesDue(s: State, k: Key): nat {
    Flushes(s.flushLog, k) + if Buffer(s, k) == [] then 0 else 1
  }

  lemma StepFlushesDue(s: State, a: Action, k: Key)
    requires Enabled(s, a) && KeyInv(s, k)
    ensures FlushesDue(Apply(s, a), k)
            == FlushesDue(s, k) + if a.Process? && a.key == k && Buffer(s, k) == [] then 1 else 0
    ensures Flushes(Apply(s, a).flushLog, k) == Flushes(s.flushLog, k) + if a == Flush(k) then 1 else 0
  {
    if a.Flush? {
      FlushedSnoc(s.flushLog, Line(a.key, |Buffer(s, a.key)|), k);
    }
  }

  lemma {:induction false} FlushesDueGrows(s: State, actions: seq<Action>, t: State, k: Key)
    requires Run(s, actions, t) && KeyInv(s, k)
    ensures FlushesDue(s, k) <= FlushesDue(t, k)
    decreases |actions|
  {
    if actions == [] {
    } else {
      StepFlushesDue(s, actions[0], k);
      StepKeepsInv(s, actions[0], k);
      FlushesDueGrows(Apply(s, actions[0]), actions[1..], t, k);
    }
  }

  lemma {:induction false} OneFlushIffQuiet(s: State, actions: seq<Action>, t: State, k: Key)
    requires Run(s, actions, t) && KeyInv(s, k) && FlushesDue(s, k) <= 1
    ensures FlushesDue(t, k) <= 1 <==> !ElementAfterFlush(actions, k, Flushes(s.flushLog, k) > 0)
    decreases |actions|
  {
    if actions == [] {
    } else {
      var a, u := actions[0], Apply(s, actions[0]);
      StepFlushesDue(s, a, k);
      StepKeepsInv(s, a, k);
      if a.Process? && a.key == k && Flushes(s.flushLog, k) > 0 {
        FlushesDueGrows(u, actions[1..], t, k);
      } else {
        OneFlushIffQuiet(u, actions[1..], t, k);
      }
    }
  }

  lemma FlushedTwiceIffElementAfterFlush(actions: seq<Action>, t: State, k: Key)
    requires Run(INIT, actions, t) && Drained(t)
    ensures Flushes(t.flushLog, k) > 1 <==> ElementAfterFlush(actions, k, false)
  {
    assert KeyInv(INIT, k) && FlushesDue(INIT, k) == 0;
    OneFlushIffQuiet(INIT, actions, t, k);
    RunKeepsInv(INIT, actions, t, k);
    assert FlushTimerRight(t, k);
  }

  /** No key receives an element after its processing-time timer has fired. */
  ghost predicate Quiet(actions: seq<Action>) {
    forall k :: k != "" ==> !ElementAfterFlush(actions, k, false)
  }

  /**
   The example's check passes exactly when no input key is empty and no key receives an
   element after its processing-time timer has fired.
   */
  lemma VerifiesIffQuiet(actions: seq<Action>, t: State)
    requires Run(INIT, actions, t) && Drained(t)
    ensures Verify(t.input, t.flushLog, t.eventLog) <==> Count(t.input, "") == 0 && Quiet(actions)
  {
    VerifiesIffFlushedOnce(actions, t);
    forall k
      ensures Flushes(t.flushLog, k) > 1 <==> ElementAfterFlush(actions, k, false)
    {
      FlushedTwiceIffElementAfterFlush(actions, t, k);
    }
    assert FlushedOnce(t.flushLog) <==> Quiet(actions);
  }

  /** One key, flushed, seen again and flushed again: conserved, drained, and rejected. */
  lemma LateElementFailsVerify(k: Key) returns (actions: seq<Action>, t: State)
    requires k != ""
    ensures Run(INIT, actions, t) && Drained(t) && !Verify(t.input, t.flushLog, t.eventLog)
  {
    var process, flush, fire := Action.Process(k, k), Flush(k), EventFlush(k);
    actions := [process, flush, process, flush, ToInfinity, fire, fire];
    var s1 := Apply(Apply(INIT, process), flush);
    var s2 := Apply(Apply(s1, process), flush);
    t := Apply(Apply(Apply(s2, ToInfinity), fire), fire);
    var end: seq<Action> := [];
    RunCons(fire, end, Apply(Apply(s2, ToInfinity), fire), t);
    RunCons(fire, [fire], Apply(s2, ToInfinity), t);
    RunCons(ToInfinity, [fire, fire], s2, t);
    RunCons(flush, [ToInfinity, fire, fire], Apply(s1, process), t);
    RunCons(process, [flush, ToInfinity, fire, fire], s1, t);
    RunCons(flush, [process, flush, ToInfinity, fire, fire], Apply(INIT, process), t);
    RunCons(process, [flush, process, flush, ToInfinity, fire, fire], INIT, t);
    assert ElementAfterFlush(actions, k, false) by {
      assert actions[1..][1..][0] == process && actions[1..][0] == flush;
      assert ElementAfterFlush(actions[1..][1..], k, true);
    }
    VerifiesIffQuiet(actions, t);
  }

  lemma {:induction false} RunCons(a: Action, rest: seq<Action>, s: State, t: State)
    requires Enabled(s, a) && Run(Apply(s, a), rest, t)
    ensures Run(s, [a] + rest, t)
  {
    assert ([a] + rest)[1..] == rest;
  }

  // ----- the callbacks and helpers -----

  /** The DoFn with the state and timers Beam keeps for it, by key, and the two files it appends to. */
  class BufferAndFireOnTimer {
    var buffer: map<Key, seq<string>>
    var eventArmed: map<Key, seq<string>>
    var flushTimers: set<Key>
    var eventTimers: set<Key>
    var outputFile: seq<Line>
    var eventFile: seq<Key>
    ghost var input: seq<Key>
    ghost var atInfinity: bool

    ghost function Abstract(): State
      reads this
    {
      var armed := set k | k in eventArmed && eventArmed[k] != [];
      State(input, buffer, armed, flushTimers, eventTimers, atInfinity, outputFile, eventFile)
    }

    ghost predicate Valid()
      reads this
    {
      forall k :: KeyInv(Abstract(), k)
    }

    constructor ()
      ensures Valid() && Abstract() == INIT
    {
      buffer, eventArmed, flushTimers, eventTimers := map[], map[], {}, {};
      outputFile, eventFile, input, atInfinity := [], [], [], false;
    }

    /** A key's element joins those not yet flushed, and both its timers are set. */
    method Process(key: Key, val: string)
      requires Valid() && !atInfinity
      modifies this
      ensures Valid() && !atInfinity
      ensures Read(buffer, key) == old(Read(buffer, key)) + [val]
      ensures |Read(buffer, key)| == Count(input, key) - Flushed(outputFile, key)
      ensures key in flushTimers && key in eventTimers && Count(input, key) == old(Count(input, key)) + 1
      ensures OthersUnchanged(key, old(Abstract()), Abstract())
      ensures outputFile == old(outputFile) && eventFile == old(eventFile) && eventArmed == old(eventArmed)
    {
      ghost var s := Abstract();
      CountSnoc(input, key, key);
      input := input + [key];
      buffer := buffer[key := Read(buffer, key) + [val]];
      flushTimers := flushTimers + {key};
      eventTimers := eventTimers + {key};
      assert Abstract() == Apply(s, Action.Process(key, val));
      StepKeepsValid(s, Action.Process(key, val));
      assert KeyInv(Abstract(), key);
    }

    /** The flushed count is not zero, and with it every element of the key so far has been counted once. */
    method OnFlush(key: Key)
      requires Valid() && key in flushTimers
      modifies this
      ensures Valid() && atInfinity == old(atInfinity)
      ensures exists n :: n > 0 && outputFile == old(outputFile) + [Line(key, n)]
      ensures Flushed(outputFile, key) == Count(input, key)
      ensures Read(buffer, key) == [] && key !in flushTimers
      ensures OthersUnchanged(key, old(Abstract()), Abstract())
      ensures eventFile == old(eventFile) && eventArmed == old(eventArmed) && eventTimers == old(eventTimers)
      ensures input == old(input)
    {
      ghost var s := Abstract();
      assert KeyInv(s, key);
      flushTimers := flushTimers - {key};
      var count := |Read(buffer, key)|;
      outputFile := outputFile + [Line(key, count)];
      buffer := buffer[key := []];
      assert Abstract() == Apply(s, Flush(key));
      StepKeepsValid(s, Flush(key));
      assert KeyInv(Abstract(), key);
    }

    /** The first firing re-arms the timer, the second leaves it unset, and there is no third. */
    method OnEventFlush(key: Key)
      requires Valid() && atInfinity && key in eventTimers
      modifies this
      ensures Valid() && atInfinity
      ensures eventFile == old(eventFile) + [key]
      ensures if old(Count(eventFile, key)) == 0 then key in eventTimers && Count(eventFile, key) == 1
              else key !in eventTimers && Count(eventFile, key) == 2
      ensures OthersUnchanged(key, old(Abstract()), Abstract())
      ensures outputFile == old(outputFile) && buffer == old(buffer) && flushTimers == old(flushTimers)
      ensures input == old(input)
    {
      ghost var s := Abstract();
      assert KeyInv(s, key);
      CountSnoc(eventFile, key, key);
      eventTimers := eventTimers - {key};
      eventFile := eventFile + [key];
      if Read(eventArmed, key) == [] {
        eventArmed := eventArmed[key := Read(eventArmed, key) + ["rearmed"]];
        eventTimers := eventTimers + {key};
      }
      assert Abstract() == Apply(s, EventFlush(key));
      StepKeepsValid(s, EventFlush(key));
    }
  }

  /** The contents of a bag state, empty until it is added to. */
  function Read(bags: map<Key, seq<string>>, k: Key): seq<string> {
    if k in bags then bags[k] else []
  }

  /** State, timers and counts of a key are the same. */
  ghost predicate KeyUnchanged(s: State, t: State, k: Key) {
    && Buffer(t, k) == Buffer(s, k)
    && (k in t.armed <==> k in s.armed)
    && (k in t.flushSet <==> k in s.flushSet)
    && (k in t.eventSet <==> k in s.eventSet)
    && Count(t.input, k) == Count(s.input, k)
    && Flushed(t.flushLog, k) == Flushed(s.flushLog, k)
    && Count(t.eventLog, k) == Count(s.eventLog, k)
  }

  ghost predicate OthersUnchanged(key: Key, s: State, t: State) {
    forall k :: k != key ==> KeyUnchanged(s, t, k)
  }

  lemma StepKeepsValid(s: State, a: Action)
    requires Enabled(s, a) && forall k :: KeyInv(s, k)
    ensures forall k :: KeyInv(Apply(s, a), k)
    ensures a != ToInfinity ==> OthersUnchanged(a.key, s, Apply(s, a))
  {
    forall k
      ensures KeyInv(Apply(s, a), k)
    {
      StepKeepsInv(s, a, k);
    }
    if a != ToInfinity {
      forall k | k != a.key {
        OtherUnchanged(s, a, k);
      }
    }
  }

  lemma OtherUnchanged(s: State, a: Action, k: Key)
    requires Enabled(s, a) && a != ToInfinity && k != a.key
    ensures KeyUnchanged(s, Apply(s, a), k)
  {
    match a
    case Process(x, _) => CountSnoc(s.input, x, k);
    case Flush(x) => FlushedSnoc(s.flushLog, Line(x, |Buffer(s, x)|), k);
    case EventFlush(x) => CountSnoc(s.eventLog, x, k);
  }

  method CountKeys(keys: seq<Key>, skip: set<Key>) returns (counts: map<Key, nat>)
    ensures counts == Tally(keys, skip)
  {
    counts := map[];
    var i := 0;
    while i < |keys|
      invariant 0 <= i <= |keys| && counts == Tally(keys[..i], skip)
    {
      assert keys[..i + 1][..i] == keys[..i];
      if keys[i] !in skip {
        counts := counts[keys[i] := Get(counts, keys[i]) + 1];
      }
      i := i + 1;
    }
    assert keys[..i] == keys;
  }

  method ReadFlushResults(log: seq<Line>) returns (counts: Option<map<Key, nat>>)
    ensures counts == ReadFlushes(log)
  {
    var m := map[];
    var i := 0;
    while i < |log|
      invariant 0 <= i <= |log| && ReadFlushes(log[..i]) == Some(m)
    {
      assert log[..i + 1][..i] == log[..i];
      if log[i].key != "" {
        if log[i].key in m {
          RepeatedKeyFails(log, i);
          return None;
        }
        m := m[log[i].key := log[i].count];
      }
      i := i + 1;
    }
    assert log[..i] == log;
    counts := Some(m);
  }

  lemma {:induction false} RepeatedKeyFails(log: seq<Line>, i: nat)
    requires i < |log| && log[i].key != "" && ReadFlushes(log[..i]).Some?
    requires log[i].key in ReadFlushes(log[..i]).value
    ensures ReadFlushes(log) == None
    decreases |log|
  {
    if i == |log| - 1 {
      assert log[..|log| - 1] == log[..i];
    } else {
      var init := log[..|log| - 1];
      assert init[..i] == log[..i];
      RepeatedKeyFails(init, i);
    }
  }
}
