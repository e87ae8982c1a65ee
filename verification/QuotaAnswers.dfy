/** Exactly when the store answers what, and what each call does to its buckets. */
module QuotaAnswers {
  import opened Common
  import opened RateLimitSpec
  import opened Quota

  /** A later clock reading has entered the store before. */
  predicate Overtaken(calls: seq<Call>, now: nat) {
    exists i :: 0 <= i < |calls| && now < calls[i].now
  }

  /** The keys whose remembered window begins at `start`. */
  function RememberedAt(buckets: Buckets, start: nat): set<RateLimitKey> {
    set key | key in buckets && buckets[key].start == start
  }

  lemma {:induction false} CapacityIsFixed(maxKeys: nat, calls: seq<Call>)
    requires ValidCalls(calls)
    ensures After(maxKeys, calls).maxKeys == maxKeys
    decreases |calls|
  {
    if calls != [] {
      CapacityIsFixed(maxKeys, calls[..|calls| - 1]);
    }
  }

  lemma RegressesExactly(maxKeys: nat, calls: seq<Call>, now: nat)
    requires ValidCalls(calls)
    ensures Regresses(After(maxKeys, calls), now) <==> Overtaken(calls, now)
  {
    LastNowIsLatest(maxKeys, calls);
  }

  lemma RetainedKeys(buckets: Buckets, start: nat)
    ensures |Retain(buckets, start)| == |RememberedAt(buckets, start)| <= |buckets|
  {
    assert Retain(buckets, start).Keys == RememberedAt(buckets, start);
    SubsetSize(RememberedAt(buckets, start), buckets.Keys);
  }

  /** An answer is an error in exactly two cases: a later reading has entered, or a new key finds no room. */
  lemma ErrorExactly(maxKeys: nat, calls: seq<Call>, c: Call)
    requires ValidCalls(calls) && c.limit.windowSeconds > 0
    ensures ValidCalls(calls + [c])
    ensures var buckets := After(maxKeys, calls).buckets;
      LastAnswer(maxKeys, calls + [c]) == StateError <==>
        || Overtaken(calls, c.now)
        || (c.limit.maxCalls > 0 && c.key !in buckets
            && |RememberedAt(buckets, WindowStart(c.now, c.limit.windowSeconds))| >= maxKeys)
  {
    OneMore(calls, c);
    CapacityIsFixed(maxKeys, calls);
    RegressesExactly(maxKeys, calls, c.now);
    RetainedKeys(After(maxKeys, calls).buckets, WindowStart(c.now, c.limit.windowSeconds));
  }

  /** A quota is reported as exhausted exactly if the reading is in order and the window has had all its calls. */
  lemma ExhaustedExactly(maxKeys: nat, calls: seq<Call>, c: Call, limits: RateLimitKey -> Limit)
    requires ValidCalls(calls) && LimitsPerKey(calls, limits) && c.limit == limits(c.key)
    requires NoLiveEviction(maxKeys, calls, limits)
    ensures ValidCalls(calls + [c])
    ensures var w := c.limit.windowSeconds;
      LastAnswer(maxKeys, calls + [c]) == Exhausted <==>
        !Overtaken(calls, c.now) && AllowedDuring(maxKeys, calls, c.key, WindowStart(c.now, w), w) >= c.limit.maxCalls
  {
    OneMore(calls, c);
    RegressesExactly(maxKeys, calls, c.now);
    HistoryAgrees(maxKeys, calls, limits);
    if !Overtaken(calls, c.now) {
      assert AgreesAt(maxKeys, calls, limits, c.key, c.now);
    }
  }

  /** A call is allowed exactly if the reading is in order, the window has calls left, and its key is known or finds room. */
  lemma AllowedExactly(maxKeys: nat, calls: seq<Call>, c: Call, limits: RateLimitKey -> Limit)
    requires ValidCalls(calls) && LimitsPerKey(calls, limits) && c.limit == limits(c.key)
    requires NoLiveEviction(maxKeys, calls, limits)
    ensures ValidCalls(calls + [c])
    ensures var w := c.limit.windowSeconds;
      var buckets := After(maxKeys, calls).buckets;
      LastAnswer(maxKeys, calls + [c]) == Allowed <==>
        && !Overtaken(calls, c.now)
        && AllowedDuring(maxKeys, calls, c.key, WindowStart(c.now, w), w) < c.limit.maxCalls
        && (c.key in buckets || |RememberedAt(buckets, WindowStart(c.now, w))| < maxKeys)
  {
    ErrorExactly(maxKeys, calls, c);
    ExhaustedExactly(maxKeys, calls, c, limits);
  }

  /** A bucket is lost exactly if a new key that may still call finds the store full, and its own window begins elsewhere. */
  lemma LostExactly(s: Store, c: Call, key: RateLimitKey)
    requires c.limit.windowSeconds > 0 && key in s.buckets
    ensures key !in Consume(s, c).0.buckets <==>
      && (s.lastNow.None? || s.lastNow.value <= c.now)
      && c.limit.maxCalls > 0 && c.key !in s.buckets && |s.buckets| >= s.maxKeys
      && s.buckets[key].start != WindowStart(c.now, c.limit.windowSeconds)
  {
  }

  /** What a call leaves of every bucket that is still there, and which one it writes. */
  lemma BucketsExactly(s: Store, c: Call, key: RateLimitKey)
    requires c.limit.windowSeconds > 0 && key in Consume(s, c).0.buckets
    ensures var (after, answer) := Consume(s, c);
      after.buckets[key] ==
        if key == c.key && answer != StateError then
          Bucket(WindowStart(c.now, c.limit.windowSeconds),
                 Used(s.buckets, key, WindowStart(c.now, c.limit.windowSeconds)) + if answer == Allowed then 1 else 0)
        else if key in s.buckets then s.buckets[key]
        else Bucket(0, 0)
    ensures key in s.buckets || (key == c.key && Consume(s, c).1 != StateError)
  {
  }
}
