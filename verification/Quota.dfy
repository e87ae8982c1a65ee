/**
 How many calls the store allows. It remembers exactly the history of a window,
 unless an eviction removes a bucket that is still counting; then it can allow
 more, and the excess is bounded by the evictions.
 */
module Quota {
  import opened Common
  import opened RateLimitSpec

  lemma {:induction false} MultiplesApart(a: nat, b: nat, w: nat)
    requires a < b
    ensures a * w + w <= b * w
    decreases b
  {
    assert b * w == (b - 1) * w + w;
    if a < b - 1 {
      MultiplesApart(a, b - 1, w);
    }
  }

  lemma StartIsMultiple(now: nat, w: nat)
    requires w > 0
    ensures WindowStart(now, w) == now / w * w
  {
  }

  /** Two instants are in one window exactly when one lies in the window of the other. */
  lemma SameWindow(a: nat, b: nat, w: nat)
    requires w > 0
    ensures WindowStart(a, w) == WindowStart(b, w) <==> WindowStart(b, w) <= a < WindowStart(b, w) + w
  {
    StartIsMultiple(a, w);
    StartIsMultiple(b, w);
    if a / w < b / w {
      MultiplesApart(a / w, b / w, w);
    } else if b / w < a / w {
      MultiplesApart(b / w, a / w, w);
    }
  }

  /** The window of an instant begins at the one multiple of its length that is at most one length before it. */
  lemma WindowStartExactly(now: nat, w: nat, start: nat)
    requires w > 0
    ensures start == WindowStart(now, w) <==> start / w * w == start && start <= now < start + w
  {
    StartIsMultiple(start, w);
    SameWindow(now, start, w);
    SameWindow(start, now, w);
  }

  lemma {:induction false} LastNowIsLatest(maxKeys: nat, calls: seq<Call>)
    requires ValidCalls(calls)
    ensures var lastNow := After(maxKeys, calls).lastNow;
      && (lastNow.None? <==> calls == [])
      && (forall i :: 0 <= i < |calls| ==> calls[i].now <= lastNow.value)
      && (calls != [] ==> exists i :: 0 <= i < |calls| && calls[i].now == lastNow.value)
    decreases |calls|
  {
    if calls != [] {
      var init := calls[..|calls| - 1];
      LastNowIsLatest(maxKeys, init);
      assert forall i :: 0 <= i < |init| ==> init[i] == calls[i];
      var last := |calls| - 1;
      assert calls[last].now <= After(maxKeys, calls).lastNow.value;
    }
  }

  /** A window that begins after every accepted clock reading has no allowed calls. */
  lemma {:induction false} NothingAllowedYet(maxKeys: nat, calls: seq<Call>, key: RateLimitKey, from: nat, length: nat)
    requires ValidCalls(calls)
    requires After(maxKeys, calls).lastNow.Some? ==> After(maxKeys, calls).lastNow.value < from
    ensures AllowedDuring(maxKeys, calls, key, from, length) == 0
    decreases |calls|
  {
    if calls != [] {
      NothingAllowedYet(maxKeys, calls[..|calls| - 1], key, from, length);
    }
  }

  /** The store's memory of the current and every later window is what the history says. */
  ghost predicate Agrees(maxKeys: nat, calls: seq<Call>, limits: RateLimitKey -> Limit)
    requires ValidCalls(calls)
  {
    forall key: RateLimitKey, now: nat :: !Regresses(After(maxKeys, calls), now) ==>
      AgreesAt(maxKeys, calls, limits, key, now)
  }

  ghost predicate AgreesAt(maxKeys: nat, calls: seq<Call>, limits: RateLimitKey -> Limit, key: RateLimitKey, now: nat)
    requires ValidCalls(calls)
  {
    var w := limits(key).windowSeconds;
    var start := WindowStart(now, w);
    Used(After(maxKeys, calls).buckets, key, start) == AllowedDuring(maxKeys, calls, key, start, w)
  }

  /** The bucket of `key` counts the window that contains `now`, by the key's own window length. */
  predicate Counting(s: Store, limits: RateLimitKey -> Limit, key: RateLimitKey, now: nat) {
    Used(s.buckets, key, WindowStart(now, limits(key).windowSeconds)) > 0
  }

  /** The call evicts a bucket that is still counting: one whose window begins elsewhere than the caller's. */
  ghost predicate EvictsLive(s: Store, c: Call, limits: RateLimitKey -> Limit) {
    && c.limit == limits(c.key)
    && !Regresses(s, c.now)
    && MustEvict(s, c.key)
    && exists key :: key in s.buckets && Counting(s, limits, key, c.now)
         && s.buckets[key].start != WindowStart(c.now, c.limit.windowSeconds)
  }

  lemma OneMore(calls: seq<Call>, c: Call)
    requires ValidCalls(calls) && c.limit.windowSeconds > 0
    ensures ValidCalls(calls + [c])
    ensures (calls + [c])[..|calls + [c]| - 1] == calls && (calls + [c])[|calls + [c]| - 1] == c
  {
  }

  /** One call, for one key and one later instant, when nothing live is evicted. */
  lemma StepAgreesAt(maxKeys: nat, calls: seq<Call>, c: Call, limits: RateLimitKey -> Limit, key: RateLimitKey, now: nat)
    requires ValidCalls(calls) && c.limit == limits(c.key) && Agrees(maxKeys, calls, limits)
    requires !EvictsLive(After(maxKeys, calls), c, limits)
    requires ValidCalls(calls + [c]) && !Regresses(After(maxKeys, calls + [c]), now)
    ensures AgreesAt(maxKeys, calls + [c], limits, key, now)
  {
    OneMore(calls, c);
    var s := After(maxKeys, calls);
    var w := limits(key).windowSeconds;
    var start := WindowStart(now, w);
    assert AgreesAt(maxKeys, calls, limits, key, now);
    if !Regresses(s, c.now) {
      if start <= c.now {
        SameWindow(c.now, now, w);
      } else {
        NothingAllowedYet(maxKeys, calls, key, start, w);
      }
      if start <= c.now && key != c.key && Used(s.buckets, key, start) > 0 {
        assert Counting(s, limits, key, c.now);
      }
    }
  }

  /**
   The store keeps agreeing with the history through a call exactly when the
   call evicts no bucket that is still counting.
   */
  lemma AgreementKeptExactly(maxKeys: nat, calls: seq<Call>, c: Call, limits: RateLimitKey -> Limit)
    requires ValidCalls(calls) && c.limit == limits(c.key) && Agrees(maxKeys, calls, limits)
    ensures ValidCalls(calls + [c])
    ensures Agrees(maxKeys, calls + [c], limits) <==> !EvictsLive(After(maxKeys, calls), c, limits)
  {
    OneMore(calls, c);
    var s := After(maxKeys, calls);
    if EvictsLive(s, c, limits) {
      var key :| key in s.buckets && Counting(s, limits, key, c.now)
                 && s.buckets[key].start != WindowStart(c.now, c.limit.windowSeconds);
      assert AgreesAt(maxKeys, calls, limits, key, c.now);
      assert !AgreesAt(maxKeys, calls + [c], limits, key, c.now);
    } else {
      forall key: RateLimitKey, now: nat | !Regresses(After(maxKeys, calls + [c]), now)
        ensures AgreesAt(maxKeys, calls + [c], limits, key, now)
      {
        StepAgreesAt(maxKeys, calls, c, limits, key, now);
      }
    }
  }

  /** No call of the history evicted a bucket that was still counting. */
  ghost predicate NoLiveEviction(maxKeys: nat, calls: seq<Call>, limits: RateLimitKey -> Limit)
    requires ValidCalls(calls)
  {
    forall i :: 0 <= i < |calls| ==> !EvictsLive(After(maxKeys, calls[..i]), calls[i], limits)
  }

  lemma {:induction false} HistoryAgrees(maxKeys: nat, calls: seq<Call>, limits: RateLimitKey -> Limit)
    requires ValidCalls(calls) && LimitsPerKey(calls, limits) && NoLiveEviction(maxKeys, calls, limits)
    ensures Agrees(maxKeys, calls, limits)
    decreases |calls|
  {
    if calls == [] {
    } else {
      var init, c := calls[..|calls| - 1], calls[|calls| - 1];
      assert init + [c] == calls;
      NoLiveEvictionBefore(maxKeys, init, c, limits);
      HistoryAgrees(maxKeys, init, limits);
      AgreementKeptExactly(maxKeys, init, c, limits);
    }
  }

  /**
   The bounded, evicting store answers like an unbounded count of the history:
   every answer that is not an error is "allowed" exactly when fewer than
   `maxCalls` earlier calls of the key were allowed in the same window.
   */
  lemma StoreRefinesHistory(maxKeys: nat, calls: seq<Call>, c: Call, limits: RateLimitKey -> Limit)
    requires ValidCalls(calls) && ValidCalls(calls + [c]) && LimitsPerKey(calls + [c], limits)
    requires NoLiveEviction(maxKeys, calls, limits)
    ensures var answer := LastAnswer(maxKeys, calls + [c]);
      var start := WindowStart(c.now, c.limit.windowSeconds);
      answer != StateError ==>
        (answer == Allowed <==> AllowedDuring(maxKeys, calls, c.key, start, c.limit.windowSeconds) < c.limit.maxCalls)
  {
    assert (calls + [c])[|calls|] == c;
    OneMore(calls, c);
    assert forall i :: 0 <= i < |calls| ==> (calls + [c])[i] == calls[i];
    HistoryAgrees(maxKeys, calls, limits);
    if !Regresses(After(maxKeys, calls), c.now) {
      assert AgreesAt(maxKeys, calls, limits, c.key, c.now);
    }
  }

  /** With one common window length an eviction only ever removes buckets of past windows. */
  lemma UniformWindowsNeverEvictLive(maxKeys: nat, calls: seq<Call>, limits: RateLimitKey -> Limit, window: nat)
    requires ValidCalls(calls) && LimitsPerKey(calls, limits)
    requires forall key: RateLimitKey :: limits(key).windowSeconds == window
    ensures NoLiveEviction(maxKeys, calls, limits)
  {
  }

  lemma NoLiveEvictionBefore(maxKeys: nat, calls: seq<Call>, c: Call, limits: RateLimitKey -> Limit)
    requires ValidCalls(calls + [c]) && NoLiveEviction(maxKeys, calls + [c], limits)
    ensures ValidCalls(calls) && NoLiveEviction(maxKeys, calls, limits)
  {
    assert forall i :: 0 <= i < |calls| ==> (calls + [c])[i] == calls[i];
    forall i | 0 <= i < |calls| ensures !EvictsLive(After(maxKeys, calls[..i]), calls[i], limits) {
      assert (calls + [c])[..i] == calls[..i];
    }
  }

  /** No window ever gets more than `maxCalls` allowed calls, as long as nothing live is evicted. */
  lemma {:induction false} QuotaHolds(maxKeys: nat, calls: seq<Call>, limits: RateLimitKey -> Limit, key: RateLimitKey, at: nat)
    requires ValidCalls(calls) && LimitsPerKey(calls, limits) && NoLiveEviction(maxKeys, calls, limits)
    ensures AllowedDuring(maxKeys, calls, key, WindowStart(at, limits(key).windowSeconds), limits(key).windowSeconds)
         <= limits(key).maxCalls
    decreases |calls|
  {
    if calls != [] {
      var init, c := calls[..|calls| - 1], calls[|calls| - 1];
      assert init + [c] == calls;
      NoLiveEvictionBefore(maxKeys, init, c, limits);
      QuotaHolds(maxKeys, init, limits, key, at);
      OneMoreWithinQuota(maxKeys, init, c, limits, key, at);
    }
  }

  lemma OneMoreWithinQuota(maxKeys: nat, calls: seq<Call>, c: Call, limits: RateLimitKey -> Limit, key: RateLimitKey, at: nat)
    requires ValidCalls(calls) && ValidCalls(calls + [c]) && LimitsPerKey(calls + [c], limits)
    requires NoLiveEviction(maxKeys, calls, limits)
    requires AllowedDuring(maxKeys, calls, key, WindowStart(at, limits(key).windowSeconds), limits(key).windowSeconds)
          <= limits(key).maxCalls
    ensures AllowedDuring(maxKeys, calls + [c], key, WindowStart(at, limits(key).windowSeconds), limits(key).windowSeconds)
         <= limits(key).maxCalls
  {
    var w := limits(key).windowSeconds;
    assert (calls + [c])[|calls|] == c;
    OneMore(calls, c);
    if c.key == key && WindowStart(at, w) <= c.now < WindowStart(at, w) + w {
      SameWindow(c.now, at, w);
      StoreRefinesHistory(maxKeys, calls, c, limits);
    }
  }

  // ----- mixed window lengths -----

  /** No bucket begins after the last accepted clock reading. */
  lemma {:induction false} UsedIsNotLater(maxKeys: nat, calls: seq<Call>, key: RateLimitKey)
    requires ValidCalls(calls)
    ensures var s := After(maxKeys, calls);
      key in s.buckets ==> s.lastNow.Some? && s.buckets[key].start <= s.lastNow.value
    decreases |calls|
  {
    if calls != [] {
      UsedIsNotLater(maxKeys, calls[..|calls| - 1], key);
    }
  }

  predicate Evicted(s: Store, c: Call, key: RateLimitKey, start: nat, w: nat)
    requires c.limit.windowSeconds > 0
  {
    && key in s.buckets && key !in Consume(s, c).0.buckets
    && s.buckets[key].start == start && start <= c.now < start + w
  }

  predicate Counts(s: Store, c: Call, key: RateLimitKey, start: nat, w: nat)
    requires c.limit.windowSeconds > 0
  {
    c.key == key && start <= c.now < start + w && Consume(s, c).1 == Allowed
  }

  /** What one call does to the memory of one window, while the window is open. */
  lemma OneConsume(s: Store, c: Call, limits: RateLimitKey -> Limit, key: RateLimitKey, at: nat)
    requires c.limit == limits(c.key)
    requires key in s.buckets ==> s.lastNow.Some? && s.buckets[key].start <= s.lastNow.value
    ensures var w := limits(key).windowSeconds;
      var start := WindowStart(at, w);
      var s' := Consume(s, c).0;
      var used, used' := Used(s.buckets, key, start), Used(s'.buckets, key, start);
      if Regresses(s', start + w - 1) then !Counts(s, c, key, start, w)
      else
        && !Regresses(s, start + w - 1)
        && (Counts(s, c, key, start, w) ==> !Evicted(s, c, key, start, w) && used' == used + 1 && used < limits(key).maxCalls)
        && (Evicted(s, c, key, start, w) ==> used' == 0)
        && (!Counts(s, c, key, start, w) && !Evicted(s, c, key, start, w) ==> used' == used)
  {
    var w := limits(key).windowSeconds;
    var start := WindowStart(at, w);
    if c.key == key && start <= c.now < start + w {
      SameWindow(c.now, at, w);
    }
  }

  lemma CallsUnfold(maxKeys: nat, init: seq<Call>, c: Call, key: RateLimitKey, start: nat, w: nat)
    requires ValidCalls(init) && c.limit.windowSeconds > 0
    ensures ValidCalls(init + [c]) && After(maxKeys, init + [c]) == Consume(After(maxKeys, init), c).0
    ensures AllowedDuring(maxKeys, init + [c], key, start, w)
         == AllowedDuring(maxKeys, init, key, start, w) + if Counts(After(maxKeys, init), c, key, start, w) then 1 else 0
    ensures Evictions(maxKeys, init + [c], key, start, w)
         == Evictions(maxKeys, init, key, start, w) + if Evicted(After(maxKeys, init), c, key, start, w) then 1 else 0
  {
    OneMore(init, c);
  }

  /** The bound in numbers: while the window is open, and once it is over. */
  predicate WithinBound(max: nat, allowed: nat, evictions: nat, used: nat, open: bool) {
    && allowed <= max * (1 + evictions)
    && (open ==> used <= max && allowed <= max * evictions + used)
  }

  lemma BoundStep(max: nat, allowed: nat, evictions: nat, used: nat, used': nat, open: bool, open': bool,
                  counts: bool, evicted: bool)
    requires WithinBound(max, allowed, evictions, used, open)
    requires !open' ==> !counts
    requires open' ==>
      && open
      && (counts ==> !evicted && used' == used + 1 && used < max)
      && (evicted ==> used' == 0)
      && (!counts && !evicted ==> used' == used)
    ensures WithinBound(
      max, allowed + (if counts then 1 else 0), evictions + (if evicted then 1 else 0), used', open')
  {
    assert max * (1 + evictions) == max * evictions + max;
    assert max * (1 + (evictions + 1)) == max * (evictions + 1) + max;
    assert max * (evictions + 1) == max * evictions + max;
  }

  ghost predicate BoundHolds(maxKeys: nat, calls: seq<Call>, limits: RateLimitKey -> Limit, key: RateLimitKey, at: nat)
    requires ValidCalls(calls)
  {
    var w := limits(key).windowSeconds;
    var start := WindowStart(at, w);
    WithinBound(
      limits(key).maxCalls,
      AllowedDuring(maxKeys, calls, key, start, w),
      Evictions(maxKeys, calls, key, start, w),
      Used(After(maxKeys, calls).buckets, key, start),
      !Regresses(After(maxKeys, calls), start + w - 1))
  }

  lemma BoundKept(maxKeys: nat, init: seq<Call>, c: Call, limits: RateLimitKey -> Limit, key: RateLimitKey, at: nat)
    requires ValidCalls(init) && c.limit == limits(c.key) && BoundHolds(maxKeys, init, limits, key, at)
    ensures ValidCalls(init + [c]) && BoundHolds(maxKeys, init + [c], limits, key, at)
  {
    var max, w := limits(key).maxCalls, limits(key).windowSeconds;
    var start := WindowStart(at, w);
    CallsUnfold(maxKeys, init, c, key, start, w);
    var s, s' := After(maxKeys, init), Consume(After(maxKeys, init), c).0;
    UsedIsNotLater(maxKeys, init, key);
    OneConsume(s, c, limits, key, at);
    BoundStep(
      max,
      AllowedDuring(maxKeys, init, key, start, w),
      Evictions(maxKeys, init, key, start, w),
      Used(s.buckets, key, start),
      Used(s'.buckets, key, start),
      !Regresses(s, start + w - 1),
      !Regresses(s', start + w - 1),
      Counts(s, c, key, start, w),
      Evicted(s, c, key, start, w));
  }

  /** The bound at every point of every history, with what is remembered of an open window. */
  lemma {:induction false} BoundAlwaysHolds(
    maxKeys: nat, calls: seq<Call>, limits: RateLimitKey -> Limit, key: RateLimitKey, at: nat)
    requires ValidCalls(calls) && LimitsPerKey(calls, limits)
    ensures BoundHolds(maxKeys, calls, limits, key, at)
    decreases |calls|
  {
    if calls != [] {
      var init, c := calls[..|calls| - 1], calls[|calls| - 1];
      BoundAlwaysHolds(maxKeys, init, limits, key, at);
      BoundKept(maxKeys, init, c, limits, key, at);
      assert init + [c] == calls;
    }
  }

  /**
   In general, with any mix of window lengths, every eviction of a bucket within
   its window lets at most one more quota through.
   */
  lemma QuotaWithEvictions(maxKeys: nat, calls: seq<Call>, limits: RateLimitKey -> Limit, key: RateLimitKey, at: nat)
    requires ValidCalls(calls) && LimitsPerKey(calls, limits)
    ensures WithinEvictionBound(maxKeys, calls, limits(key), key, WindowStart(at, limits(key).windowSeconds))
  {
    BoundAlwaysHolds(maxKeys, calls, limits, key, at);
  }

  /** One quota, and one more for each eviction in the window. */
  predicate WithinEvictionBound(maxKeys: nat, calls: seq<Call>, limit: Limit, key: RateLimitKey, start: nat)
    requires ValidCalls(calls)
  {
    AllowedDuring(maxKeys, calls, key, start, limit.windowSeconds)
      <= limit.maxCalls * (1 + Evictions(maxKeys, calls, key, start, limit.windowSeconds))
  }

  const LONG_KEY := RateLimitKey("p", 0, None, None, None)
  const SHORT_KEY := RateLimitKey("p", 1, None, None, None)
  const LONG_CALL := Call(LONG_KEY, RateLimit(1, 10), 5)
  const SHORT_CALL := Call(SHORT_KEY, RateLimit(1, 3), 5)

  /** A full store with two window lengths: one call per ten seconds is allowed, and two are let through. */
  lemma MixedWindowsExceedQuota()
    ensures var calls := [LONG_CALL, SHORT_CALL, LONG_CALL];
      ValidCalls(calls) && AllowedDuring(1, calls, LONG_KEY, 0, 10) == 2
  {
    var one, two, three := [LONG_CALL], [LONG_CALL, SHORT_CALL], [LONG_CALL, SHORT_CALL, LONG_CALL];
    assert one[..0] == [] && two[..1] == one && three[..2] == two;
    assert After(1, one) == Store(Some(5), map[LONG_KEY := Bucket(0, 1)], 1);
    assert Retain(After(1, one).buckets, 3) == map[];
    assert After(1, two) == Store(Some(5), map[SHORT_KEY := Bucket(3, 1)], 1);
    assert Retain(After(1, two).buckets, 0) == map[];
    assert LastAnswer(1, one) == Allowed && LastAnswer(1, three) == Allowed;
    assert AllowedDuring(1, one, LONG_KEY, 0, 10) == 1;
    assert AllowedDuring(1, two, LONG_KEY, 0, 10) == 1;
  }

  // ----- capacity and errors -----

  /** The bound on the number of keys survives a call exactly when the call is not of a rule that allows no calls at all. */
  lemma CapacityKeptExactly(s: Store, c: Call)
    requires c.limit.windowSeconds > 0 && |s.buckets| <= s.maxKeys && s.maxKeys > 0
    requires forall key :: key in s.buckets ==> s.buckets[key].count > 0
    ensures |Consume(s, c).0.buckets| <= s.maxKeys
       <==> !(c.limit.maxCalls == 0 && MustEvict(s, c.key) && !Regresses(s, c.now))
    ensures c.limit.maxCalls > 0 ==> forall key :: key in Consume(s, c).0.buckets ==> Consume(s, c).0.buckets[key].count > 0
  {
    if !Regresses(s, c.now) {
      var start := WindowStart(c.now, c.limit.windowSeconds);
      KeysAfterPut(s.buckets, c.key, Bucket(start, Used(s.buckets, c.key, start)));
      KeysAfterPut(s.buckets, c.key, Bucket(start, Used(s.buckets, c.key, start) + 1));
      KeysAfterPut(Retain(s.buckets, start), c.key, Bucket(start, Used(s.buckets, c.key, start) + 1));
      RetainShrinks(s.buckets, start);
    }
  }

  lemma KeysAfterPut(buckets: Buckets, key: RateLimitKey, bucket: Bucket)
    ensures |buckets[key := bucket]| == |buckets| + if key in buckets then 0 else 1
  {
    if key in buckets {
      assert buckets[key := bucket].Keys == buckets.Keys;
    } else {
      assert buckets[key := bucket].Keys == buckets.Keys + {key};
    }
  }

  lemma RetainShrinks(buckets: Buckets, start: nat)
    ensures |Retain(buckets, start)| <= |buckets|
  {
    SubsetSize(Retain(buckets, start).Keys, buckets.Keys);
  }

  lemma {:induction false} CapacityHolds(maxKeys: nat, calls: seq<Call>, limits: RateLimitKey -> Limit)
    requires maxKeys > 0 && ValidCalls(calls) && LimitsPerKey(calls, limits)
    ensures var s := After(maxKeys, calls);
      && s.maxKeys == maxKeys && |s.buckets| <= maxKeys
      && forall key :: key in s.buckets ==> s.buckets[key].count > 0
    decreases |calls|
  {
    if calls != [] {
      var init, c := calls[..|calls| - 1], calls[|calls| - 1];
      CapacityHolds(maxKeys, init, limits);
      CapacityKeptExactly(After(maxKeys, init), c);
    }
  }

  /**
   An error never lets a call through and never changes what is remembered of a
   current window: a regressing clock changes nothing, and a full store forgets
   only buckets that no longer count.
   */
  lemma ErrorsChangeNoLiveCount(s: Store, c: Call, limits: RateLimitKey -> Limit, key: RateLimitKey)
    requires c.limit == limits(c.key) && Consume(s, c).1 == StateError && !EvictsLive(s, c, limits)
    ensures Regresses(s, c.now) ==> Consume(s, c).0 == s
    ensures !Regresses(s, c.now) ==>
      var start := WindowStart(c.now, limits(key).windowSeconds);
      Used(Consume(s, c).0.buckets, key, start) == Used(s.buckets, key, start)
  {
    if !Regresses(s, c.now) && key in s.buckets && Counting(s, limits, key, c.now) {
      assert MustEvict(s, c.key);
    }
  }
}
