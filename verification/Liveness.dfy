/**
 The liveness guard: worker messages touch a clock, and a bundle is failed when a
 polling loop finds the clock untouched for `maxIdle`. Times are milliseconds.
 */
module Liveness {

  const POLL_MS: nat := 100

  /** `jitter` bounds how late the runtime may wake a sleeping poll. */
  datatype Config = Config(maxIdle: nat, jitter: nat)

  /** A timed-out guard remembers when it fired, the touches it had seen, and whether at its first poll. */
  datatype Waiter =
    | NotStarted
    | Sleeping(wakeAt: nat)
    | TimedOut(at: nat, seen: seq<nat>, firstPoll: bool)
    | Completed

  /** `touches` records the creation of the clock and every touch, oldest first. */
  datatype State = State(now: nat, last: nat, touches: seq<nat>, waiter: Waiter)

  /** The clock starts touched, so the first idle window starts clean. */
  ghost predicate Init(s: State) {
    s.last == s.now && s.touches == [s.now] && s.waiter == NotStarted
  }

  datatype Action = Tick(ms: nat) | Touch | Start | Poll | Finish

  /** Rust's `saturating_sub`. */
  function Idle(now: nat, last: nat): nat {
    if now >= last then now - last else 0
  }

  /** One look at the clock: fail the bundle or sleep again. */
  function Polled(c: Config, s: State): State {
    s.(waiter :=
         if Idle(s.now, s.last) >= c.maxIdle then TimedOut(s.now, s.touches, s.waiter.NotStarted?)
         else Sleeping(s.now + POLL_MS))
  }

  /** Time that seems to have gone backwards counts as no idle time. */
  lemma IdleIs(now: nat, last: nat)
    ensures last <= now ==> last + Idle(now, last) == now
    ensures now <= last ==> Idle(now, last) == 0
  {
  }

  ghost predicate Enabled(c: Config, s: State, a: Action) {
    match a
    case Tick(ms) => s.waiter.Sleeping? ==> s.now + ms <= s.waiter.wakeAt + c.jitter
    case Touch => true
    case Start => s.waiter.NotStarted?
    case Poll => s.waiter.Sleeping? && s.now >= s.waiter.wakeAt
    case Finish => s.waiter.NotStarted? || s.waiter.Sleeping?
  }

  function Apply(c: Config, s: State, a: Action): State {
    match a
    case Tick(ms) => s.(now := s.now + ms)
    case Touch => s.(last := s.now, touches := s.touches + [s.now])
    case Start => Polled(c, s)
    case Poll => Polled(c, s)
    case Finish => s.(waiter := Completed)
  }

  /** The state after a run of actions, each enabled when it happens. */
  ghost predicate Run(c: Config, s: State, actions: seq<Action>, t: State)
    decreases |actions|
  {
    if actions == [] then s == t
    else Enabled(c, s, actions[0]) && Run(c, Apply(c, s, actions[0]), actions[1..], t)
  }

  ghost predicate Inv(c: Config, s: State) {
    && s.touches != []
    && s.last == s.touches[|s.touches| - 1]
    && (forall i :: 0 <= i < |s.touches| ==> s.touches[i] <= s.last)
    && s.last <= s.now
    && match s.waiter
       case NotStarted => true
       case Sleeping(wakeAt) => POLL_MS <= wakeAt && wakeAt - POLL_MS < s.last + c.maxIdle && s.now <= wakeAt + c.jitter
       case TimedOut(at, seen, firstPoll) =>
         && at <= s.now
         && seen != [] && seen <= s.touches
         && (firstPoll || at < seen[|seen| - 1] + c.maxIdle + POLL_MS + c.jitter)
         && (forall i :: 0 <= i < |seen| ==> seen[i] + c.maxIdle <= at)
         && (forall i :: |seen| <= i < |s.touches| ==> at <= s.touches[i])
       case Completed => true
  }

  lemma StepKeepsInv(c: Config, s: State, a: Action)
    requires Inv(c, s) && Enabled(c, s, a)
    ensures Inv(c, Apply(c, s, a))
  {
    var t := Apply(c, s, a);
    if a.Touch? && s.waiter.TimedOut? {
      assert s.touches <= t.touches;
      assert s.waiter.seen <= t.touches;
    }
  }

  lemma {:induction false} RunKeepsInv(c: Config, s: State, actions: seq<Action>, t: State)
    requires Inv(c, s) && Run(c, s, actions, t)
    ensures Inv(c, t)
    decreases |actions|
  {
    if actions == [] {
    } else {
      StepKeepsInv(c, s, actions[0]);
      RunKeepsInv(c, Apply(c, s, actions[0]), actions[1..], t);
    }
  }

  /**
   In every run, an idle error at time `at` means that the creation of the clock and
   every touch before it lie at least `maxIdle` in the past.
   */
  lemma ErrorOnlyWhenIdle(c: Config, s: State, actions: seq<Action>, t: State)
    requires Init(s) && Run(c, s, actions, t) && t.waiter.TimedOut?
    ensures forall i :: 0 <= i < |t.touches| ==>
              t.touches[i] + c.maxIdle <= t.waiter.at || t.waiter.at <= t.touches[i]
    ensures s.now + c.maxIdle <= t.waiter.at <= t.now
  {
    RunKeepsInv(c, s, actions, t);
    RunKeepsHistory(c, s, actions, t);
  }

  lemma {:induction false} RunKeepsHistory(c: Config, s: State, actions: seq<Action>, t: State)
    requires Run(c, s, actions, t)
    ensures s.touches <= t.touches
    decreases |actions|
  {
    if actions == [] {
    } else {
      RunKeepsHistory(c, Apply(c, s, actions[0]), actions[1..], t);
    }
  }

  /** While the guard waits, the worker has been silent for less than `maxIdle` plus one late poll. */
  lemma WaitingMeansRecent(c: Config, s: State, actions: seq<Action>, t: State)
    requires Init(s) && Run(c, s, actions, t) && t.waiter.Sleeping?
    ensures t.now < t.last + c.maxIdle + 100 + c.jitter
  {
    RunKeepsInv(c, s, actions, t);
  }

  /**
   A hung worker is caught: once the guard has started, the bundle has not finished and
   `maxIdle` plus one late poll has passed since the last touch, the error has occurred.
   */
  lemma HungWorkerIsCaught(c: Config, s: State, actions: seq<Action>, t: State)
    requires Init(s) && Run(c, s, actions, t)
    requires !t.waiter.NotStarted? && !t.waiter.Completed?
    requires t.now >= t.last + c.maxIdle + 100 + c.jitter
    ensures t.waiter.TimedOut?
  {
    if t.waiter.Sleeping? {
      WaitingMeansRecent(c, s, actions, t);
    }
  }

  /** The error is raised at the first poll, or within `maxIdle` plus one late poll of the last touch. */
  lemma ErrorIsPrompt(c: Config, s: State, actions: seq<Action>, t: State)
    requires Init(s) && Run(c, s, actions, t) && t.waiter.TimedOut? && !t.waiter.firstPoll
    ensures exists i :: 0 <= i < |t.touches| && t.touches[i] <= t.waiter.at
                        && t.waiter.at < t.touches[i] + c.maxIdle + 100 + c.jitter
  {
    RunKeepsInv(c, s, actions, t);
    var i := |t.waiter.seen| - 1;
    assert t.touches[i] == t.waiter.seen[i];
  }

  // ----- the clock, the polling loop and the guard -----

  ghost predicate Reaches(c: Config, s: State, t: State) {
    exists actions :: Run(c, s, actions, t)
  }

  lemma ReachesItself(c: Config, s: State)
    ensures Reaches(c, s, s)
  {
    assert Run(c, s, [], s);
  }

  lemma ReachesOneMore(c: Config, s: State, t: State, a: Action)
    requires Reaches(c, s, t) && Enabled(c, t, a)
    ensures Reaches(c, s, Apply(c, t, a))
  {
    var actions :| Run(c, s, actions, t);
    RunExtends(c, s, actions, t, a);
  }

  lemma {:induction false} RunExtends(c: Config, s: State, actions: seq<Action>, t: State, a: Action)
    requires Run(c, s, actions, t) && Enabled(c, t, a)
    ensures Run(c, s, actions + [a], Apply(c, t, a))
    decreases |actions|
  {
    if actions == [] {
      assert (actions + [a])[1..] == [];
    } else {
      RunExtends(c, Apply(c, s, actions[0]), actions[1..], t, a);
      assert (actions + [a])[1..] == actions[1..] + [a];
    }
  }

  /** The global clock: the time, the stored time of the last activity, and every activity so far. */
  class Clock {
    var nowMs: nat
    var lastActivityMs: nat
    ghost var touches: seq<nat>

    ghost predicate Valid()
      reads this
    {
      && touches != [] && lastActivityMs == touches[|touches| - 1] && lastActivityMs <= nowMs
      && forall i :: 0 <= i < |touches| ==> touches[i] <= lastActivityMs
    }

    /** The state of a guard over this clock. */
    ghost function With(w: Waiter): State
      reads this
    {
      State(nowMs, lastActivityMs, touches, w)
    }

    constructor (start: nat)
      ensures Valid() && Init(With(NotStarted)) && nowMs == start
    {
      nowMs, lastActivityMs, touches := start, start, [start];
    }

    /** Activity starts a new idle window: whoever polls next sees none that began before it. */
    method Touch()
      requires Valid()
      modifies this
      ensures Valid() && nowMs == old(nowMs)
      ensures touches == old(touches) + [nowMs] && Idle(nowMs, lastActivityMs) == 0
      ensures forall c, w :: With(w) == Apply(c, old(With(w)), Action.Touch)
    {
      lastActivityMs := nowMs;
      touches := touches + [nowMs];
    }
  }

  /** What the rest of the process does while the guard sleeps: time passes, messages arrive. */
  datatype Event = Pass(ms: nat) | Activity

  function Elapsed(events: seq<Event>): nat {
    if events == [] then 0 else (if events[0].Pass? then events[0].ms else 0) + Elapsed(events[1..])
  }

  /** A sleep of one poll interval, woken at most `jitter` late. */
  predicate IsSleep(c: Config, events: seq<Event>) {
    100 <= Elapsed(events) <= 100 + c.jitter
  }

  /** Activity takes no time. */
  lemma SleepIs(c: Config, ms: nat)
    ensures IsSleep(c, [Pass(ms), Activity]) <==> 100 <= ms <= 100 + c.jitter
  {
    var events := [Pass(ms), Activity];
    assert events[1..] == [Activity] && events[1..][1..] == [];
    assert Elapsed(events[1..]) == 0;
  }

  /** The events of one sleep, as steps of the protocol. */
  method Sleep(c: Config, clock: Clock, events: seq<Event>, ghost s: State, ghost wakeAt: nat)
    requires clock.Valid() && Reaches(c, s, clock.With(Sleeping(wakeAt)))
    requires clock.nowMs + Elapsed(events) <= wakeAt + c.jitter
    modifies clock
    ensures clock.Valid() && Reaches(c, s, clock.With(Sleeping(wakeAt)))
    ensures clock.nowMs == old(clock.nowMs) + Elapsed(events)
  {
    var i := 0;
    assert events[0..] == events;
    while i < |events|
      invariant 0 <= i <= |events| && clock.Valid() && Reaches(c, s, clock.With(Sleeping(wakeAt)))
      invariant clock.nowMs + Elapsed(events[i..]) == old(clock.nowMs) + Elapsed(events)
    {
      assert events[i..][1..] == events[i + 1..];
      ghost var t := clock.With(Sleeping(wakeAt));
      match events[i] {
        case Pass(ms) =>
          ReachesOneMore(c, s, t, Tick(ms));
          clock.nowMs := clock.nowMs + ms;
          assert clock.With(Sleeping(wakeAt)) == Apply(c, t, Tick(ms));
        case Activity =>
          ReachesOneMore(c, s, t, Action.Touch);
          clock.Touch();
          assert clock.With(Sleeping(wakeAt)) == Apply(c, t, Action.Touch);
      }
      i := i + 1;
    }
  }

  /**
   `wait_idle` until it fires or the `sleeps` the bundle lasts for are over. Its execution
   is a run of the protocol, so everything proved of runs holds of it: it fires with an
   idle error the guard reports, and otherwise it is still asleep.
   */
  method WaitIdle(c: Config, clock: Clock, sleeps: seq<seq<Event>>) returns (fired: bool, ghost w: Waiter)
    requires clock.Valid() && forall i :: 0 <= i < |sleeps| ==> IsSleep(c, sleeps[i])
    modifies clock
    ensures clock.Valid() && Reaches(c, old(clock.With(NotStarted)), clock.With(w))
    ensures if fired then w.TimedOut? && w.at == clock.nowMs && w.seen == clock.touches
            else w == Sleeping(clock.nowMs + POLL_MS)
    ensures fired && w.firstPoll ==> clock.nowMs == old(clock.nowMs)
    ensures fired ==> Idle(clock.nowMs, clock.lastActivityMs) >= c.maxIdle
  {
    ghost var s := clock.With(NotStarted);
    ReachesItself(c, s);
    w := NotStarted;
    var k := 0;
    while true
      invariant 0 <= k <= |sleeps| && clock.Valid() && Reaches(c, s, clock.With(w))
      invariant w.NotStarted? ==> clock.nowMs == s.now
      invariant w.NotStarted? || (w.Sleeping? && clock.nowMs >= w.wakeAt)
      decreases |sleeps| - k
    {
      ghost var t := clock.With(w);
      ReachesOneMore(c, s, t, if w.NotStarted? then Start else Poll);
      w := Polled(c, t).waiter;
      assert clock.With(w) == Polled(c, t);
      if Idle(clock.nowMs, clock.lastActivityMs) >= c.maxIdle {
        return true, w;
      }
      if k == |sleeps| {
        return false, w;
      }
      Sleep(c, clock, sleeps[k], s, w.wakeAt);
      k := k + 1;
    }
  }

  /** The bundle's own result, or an idle error while it was pending or although it was ready. */
  datatype Outcome = Finished | FailedPending | FailedReady

  /** At the wake-up after the last sleep the polling loop looks at the clock again, unless its sleep is not over. */
  predicate PollDue(sleeps: seq<seq<Event>>) {
    sleeps == [] || Elapsed(sleeps[|sleeps| - 1]) >= 100
  }

  /**
   `idle_guard` on a clock of any age, over a bundle that is pending before each of the
   `sleeps` and ready at the wake-up after them, at once when there are none. The race polls
   its two sides in either order. An error means `maxIdle` without any activity; a ready
   bundle is failed exactly when the clock is looked at first and found idle; and unless the
   bundle was ready at once or failed at the first poll, activity was no longer ago than
   `maxIdle` and one late poll.
   */
  method IdleGuard(c: Config, clock: Clock, sleeps: seq<seq<Event>>, clockFirst: bool) returns (outcome: Outcome)
    requires clock.Valid() && forall i :: 0 <= i < |sleeps| - 1 ==> IsSleep(c, sleeps[i])
    requires sleeps != [] ==> Elapsed(sleeps[|sleeps| - 1]) <= 100 + c.jitter
    modifies clock
    ensures clock.Valid()
    ensures outcome != Finished ==> forall i :: 0 <= i < |clock.touches| ==> clock.touches[i] + c.maxIdle <= clock.nowMs
    ensures outcome != FailedPending ==>
              (outcome == FailedReady <==>
               clockFirst && PollDue(sleeps) && Idle(clock.nowMs, clock.lastActivityMs) >= c.maxIdle)
    ensures sleeps == [] ==>
              outcome != FailedPending && clock.nowMs == old(clock.nowMs) && clock.touches == old(clock.touches)
    ensures sleeps == [] || (outcome == FailedPending && clock.nowMs == old(clock.nowMs))
            || clock.nowMs < clock.lastActivityMs + c.maxIdle + 100 + c.jitter
  {
    ghost var s := clock.With(NotStarted);
    ghost var w := NotStarted;
    if sleeps == [] {
      ReachesItself(c, s);
    } else {
      var failed;
      failed, w := WaitIdle(c, clock, sleeps[..|sleeps| - 1]);
      if failed {
        KeepsInv(c, s, clock.With(w));
        return FailedPending;
      }
      Sleep(c, clock, sleeps[|sleeps| - 1], s, w.wakeAt);
    }
    KeepsInv(c, s, clock.With(w));
    if clockFirst && PollDue(sleeps) && Idle(clock.nowMs, clock.lastActivityMs) >= c.maxIdle {
      return FailedReady;
    }
    outcome := Finished;
  }

  lemma KeepsInv(c: Config, s: State, t: State)
    requires Inv(c, s) && Reaches(c, s, t)
    ensures Inv(c, t)
  {
    var actions :| Run(c, s, actions, t);
    RunKeepsInv(c, s, actions, t);
  }

  /** A bundle ready at once on a stale clock is returned or failed as the race happens to look. */
  lemma ReadyBundleMayFail(c: Config, s: State)
    requires Init(s)
    ensures var t := Apply(c, s, Tick(c.maxIdle));
            && Run(c, s, [Tick(c.maxIdle), Finish], Apply(c, t, Finish)) && Apply(c, t, Finish).waiter == Completed
            && Run(c, s, [Tick(c.maxIdle), Start], Apply(c, t, Start)) && Apply(c, t, Start).waiter.TimedOut?
  {
    var t := Apply(c, s, Tick(c.maxIdle));
    TwoSteps(c, s, Tick(c.maxIdle), Finish);
    TwoSteps(c, s, Tick(c.maxIdle), Start);
  }

  lemma TwoSteps(c: Config, s: State, a: Action, b: Action)
    requires Enabled(c, s, a) && Enabled(c, Apply(c, s, a), b)
    ensures Run(c, s, [a, b], Apply(c, Apply(c, s, a), b))
  {
    var t := Apply(c, s, a);
    assert [a, b][1..] == [b];
    assert Run(c, t, [b], Apply(c, t, b)) by {
      assert [b][1..] == [];
      assert Run(c, Apply(c, t, b), [], Apply(c, t, b));
    }
  }
}
