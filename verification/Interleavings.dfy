/**
 Many threads use one store. Each reads the clock first and enters the locked
 store later, so that readings can reach the store out of order.
 */
module Interleavings {
  import opened RateLimitSpec
  import opened Quota

  datatype Step =
    | Tick(seconds: nat)
    | ReadClock(thread: nat, key: RateLimitKey)
    | Enter(thread: nat)

  /** `entered` lists the calls in the order in which they got the lock. */
  datatype System = System(clock: nat, waiting: map<nat, Call>, store: Store, entered: seq<Call>, answers: seq<Answer>)

  function Begin(maxKeys: nat): System {
    System(0, map[], Empty(maxKeys), [], [])
  }

  function Next(sys: System, limits: RateLimitKey -> Limit, step: Step): System
    requires forall t :: t in sys.waiting ==> sys.waiting[t].limit.windowSeconds > 0
  {
    match step
    case Tick(seconds) => sys.(clock := sys.clock + seconds)
    case ReadClock(thread, key) =>
      if thread in sys.waiting then sys
      else sys.(waiting := sys.waiting[thread := Call(key, limits(key), sys.clock)])
    case Enter(thread) =>
      if thread !in sys.waiting then sys
      else
        var call := sys.waiting[thread];
        var (store, answer) := Consume(sys.store, call);
        System(sys.clock, sys.waiting - {thread}, store, sys.entered + [call], sys.answers + [answer])
  }

  ghost predicate Valid(sys: System, maxKeys: nat, limits: RateLimitKey -> Limit) {
    && (forall t :: t in sys.waiting ==>
          sys.waiting[t].limit == limits(sys.waiting[t].key) && sys.waiting[t].now <= sys.clock)
    && ValidCalls(sys.entered) && LimitsPerKey(sys.entered, limits)
    && sys.store == After(maxKeys, sys.entered)
    && |sys.answers| == |sys.entered|
  }

  lemma StepKeepsValid(sys: System, maxKeys: nat, limits: RateLimitKey -> Limit, step: Step)
    requires Valid(sys, maxKeys, limits)
    ensures Valid(Next(sys, limits, step), maxKeys, limits)
  {
    if step.Enter? && step.thread in sys.waiting {
      OneMore(sys.entered, sys.waiting[step.thread]);
    }
  }

  /** The system after a schedule of steps of any threads in any order. */
  ghost function Run(maxKeys: nat, limits: RateLimitKey -> Limit, steps: seq<Step>): (sys: System)
    ensures Valid(sys, maxKeys, limits)
    decreases |steps|
  {
    if steps == [] then Begin(maxKeys)
    else
      var before := Run(maxKeys, limits, steps[..|steps| - 1]);
      StepKeepsValid(before, maxKeys, limits, steps[|steps| - 1]);
      Next(before, limits, steps[|steps| - 1])
  }

  /**
   Quota safety over every interleaving: however the threads are scheduled
   between reading the clock and entering the store, no key gets more than its
   quota in a window, if all limits share one window length.
   */
  lemma QuotaOverInterleavings(
    maxKeys: nat, limits: RateLimitKey -> Limit, steps: seq<Step>, key: RateLimitKey, at: nat, window: nat)
    requires window > 0 && forall k: RateLimitKey :: limits(k).windowSeconds == window
    ensures AllowedDuring(maxKeys, Run(maxKeys, limits, steps).entered, key, WindowStart(at, window), window)
         <= limits(key).maxCalls
  {
    var entered := Run(maxKeys, limits, steps).entered;
    UniformWindowsNeverEvictLive(maxKeys, entered, limits, window);
    QuotaHolds(maxKeys, entered, limits, key, at);
  }

  /** With any mix of window lengths, no more than one quota for each eviction in the window, and one. */
  lemma QuotaOverInterleavingsWithEvictions(
    maxKeys: nat, limits: RateLimitKey -> Limit, steps: seq<Step>, key: RateLimitKey, at: nat)
    ensures WithinEvictionBound(
      maxKeys, Run(maxKeys, limits, steps).entered, limits(key), key, WindowStart(at, limits(key).windowSeconds))
  {
    QuotaWithEvictions(maxKeys, Run(maxKeys, limits, steps).entered, limits, key, at);
  }

  /** A waiting thread is refused for its clock reading exactly if a later reading has entered before it. */
  lemma RefusedExactlyWhenOvertaken(maxKeys: nat, limits: RateLimitKey -> Limit, steps: seq<Step>, thread: nat)
    requires thread in Run(maxKeys, limits, steps).waiting
    ensures var sys := Run(maxKeys, limits, steps);
      var reading := sys.waiting[thread].now;
      var entered := Run(maxKeys, limits, steps + [Enter(thread)]);
      && (Regresses(sys.store, reading) <==> exists i :: 0 <= i < |sys.entered| && reading < sys.entered[i].now)
      && entered.entered == sys.entered + [sys.waiting[thread]]
      && (Regresses(sys.store, reading) ==> entered.store == sys.store && entered.answers == sys.answers + [StateError])
  {
    var all := steps + [Enter(thread)];
    assert all[..|all| - 1] == steps;
    LastNowIsLatest(maxKeys, Run(maxKeys, limits, steps).entered);
  }

  // ----- every order of readings and entries is a schedule -----

  /** The calls whose threads have read the clock: those before `t`, and the first `k` of those at `t`. */
  ghost function Readers(calls: seq<Call>, t: nat, k: nat): map<nat, Call> {
    map i: nat | i < |calls| && (calls[i].now < t || (calls[i].now == t && i < k)) :: calls[i]
  }

  lemma OneMoreStep(maxKeys: nat, limits: RateLimitKey -> Limit, steps: seq<Step>, step: Step)
    ensures Run(maxKeys, limits, steps + [step]) == Next(Run(maxKeys, limits, steps), limits, step)
  {
    assert (steps + [step])[..|steps + [step]| - 1] == steps;
  }

  /** The system in which those threads wait and none has entered. */
  ghost function Reading(maxKeys: nat, calls: seq<Call>, t: nat, k: nat): System {
    System(t, Readers(calls, t, k), Empty(maxKeys), [], [])
  }

  lemma OneMoreReader(maxKeys: nat, limits: RateLimitKey -> Limit, calls: seq<Call>, t: nat, k: nat)
    requires LimitsPerKey(calls, limits) && k < |calls| && Valid(Reading(maxKeys, calls, t, k), maxKeys, limits)
    ensures Reading(maxKeys, calls, t, k + 1) ==
      if calls[k].now == t then Next(Reading(maxKeys, calls, t, k), limits, ReadClock(k, calls[k].key))
      else Reading(maxKeys, calls, t, k)
  {
    if calls[k].now == t {
      assert Readers(calls, t, k + 1) == Readers(calls, t, k)[k := calls[k]];
    } else {
      assert Readers(calls, t, k + 1) == Readers(calls, t, k);
    }
  }

  lemma OneMoreSecond(maxKeys: nat, limits: RateLimitKey -> Limit, calls: seq<Call>, t: nat)
    requires Valid(Reading(maxKeys, calls, t, |calls|), maxKeys, limits)
    ensures Next(Reading(maxKeys, calls, t, |calls|), limits, Tick(1)) == Reading(maxKeys, calls, t + 1, 0)
  {
    assert Readers(calls, t + 1, 0) == Readers(calls, t, |calls|);
  }

  lemma {:induction false} ReadUpTo(maxKeys: nat, limits: RateLimitKey -> Limit, calls: seq<Call>, t: nat, k: nat)
    returns (steps: seq<Step>)
    requires LimitsPerKey(calls, limits) && k <= |calls|
    ensures Run(maxKeys, limits, steps) == Reading(maxKeys, calls, t, k)
    decreases t, k
  {
    if k > 0 {
      steps := ReadUpTo(maxKeys, limits, calls, t, k - 1);
      OneMoreReader(maxKeys, limits, calls, t, k - 1);
      if calls[k - 1].now == t {
        OneMoreStep(maxKeys, limits, steps, ReadClock(k - 1, calls[k - 1].key));
        steps := steps + [ReadClock(k - 1, calls[k - 1].key)];
      }
    } else if t > 0 {
      steps := ReadUpTo(maxKeys, limits, calls, t - 1, |calls|);
      OneMoreStep(maxKeys, limits, steps, Tick(1));
      OneMoreSecond(maxKeys, limits, calls, t - 1);
      steps := steps + [Tick(1)];
    } else {
      steps := [];
      assert Readers(calls, 0, 0) == map[];
    }
  }

  /** The first `n` calls have entered, and the others wait. */
  ghost predicate HaveEntered(sys: System, calls: seq<Call>, n: nat)
    requires n <= |calls|
  {
    sys.entered == calls[..n] && forall i: nat :: n <= i < |calls| ==> i in sys.waiting && sys.waiting[i] == calls[i]
  }

  lemma OneMoreEntry(sys: System, maxKeys: nat, limits: RateLimitKey -> Limit, calls: seq<Call>, n: nat)
    requires n < |calls| && HaveEntered(sys, calls, n) && Valid(sys, maxKeys, limits)
    ensures HaveEntered(Next(sys, limits, Enter(n)), calls, n + 1)
  {
    assert calls[..n] + [calls[n]] == calls[..n + 1];
  }

  lemma {:induction false} EnterUpTo(maxKeys: nat, limits: RateLimitKey -> Limit, calls: seq<Call>, t: nat, n: nat)
    returns (steps: seq<Step>)
    requires LimitsPerKey(calls, limits) && n <= |calls| && forall i :: 0 <= i < |calls| ==> calls[i].now <= t
    ensures HaveEntered(Run(maxKeys, limits, steps), calls, n)
    decreases n
  {
    if n == 0 {
      steps := ReadUpTo(maxKeys, limits, calls, t, |calls|);
    } else {
      steps := EnterUpTo(maxKeys, limits, calls, t, n - 1);
      OneMoreEntry(Run(maxKeys, limits, steps), maxKeys, limits, calls, n - 1);
      OneMoreStep(maxKeys, limits, steps, Enter(n - 1));
      steps := steps + [Enter(n - 1)];
    }
  }

  function LatestReading(calls: seq<Call>): (t: nat)
    ensures forall i :: 0 <= i < |calls| ==> calls[i].now <= t
  {
    if calls == [] then 0
    else
      var t := LatestReading(calls[..|calls| - 1]);
      if calls[|calls| - 1].now > t then calls[|calls| - 1].now else t
  }

  /** Threads can be scheduled so that any calls, with readings in any order, enter the store one after the other. */
  lemma EveryOrderIsScheduled(maxKeys: nat, limits: RateLimitKey -> Limit, calls: seq<Call>) returns (steps: seq<Step>)
    requires LimitsPerKey(calls, limits)
    ensures Run(maxKeys, limits, steps).entered == calls
  {
    steps := EnterUpTo(maxKeys, limits, calls, LatestReading(calls), |calls|);
    assert calls[..|calls|] == calls;
  }
}
