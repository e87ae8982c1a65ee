/** The quota store as the two runtimes implement it: one object updated in place under a lock. */
module RateLimitStores {
  import opened Common
  import opened RateLimitSpec

  class InMemoryRateLimitStore {
    const maxKeys: nat
    var lastNow: Option<nat>
    var buckets: Buckets

    constructor (maxKeys: nat)
      ensures View() == Empty(maxKeys)
    {
      this.maxKeys := maxKeys;
      lastNow, buckets := None, map[];
    }

    /** A store needs room for at least one key. */
    static method WithCapacity(maxKeys: nat) returns (store: Option<InMemoryRateLimitStore>)
      ensures store.Some? <==> maxKeys != 0
      ensures store.Some? ==> fresh(store.value) && store.value.View() == Empty(maxKeys)
    {
      if maxKeys == 0 {
        return None;
      }
      var created := new InMemoryRateLimitStore(maxKeys);
      store := Some(created);
    }

    function View(): Store
      reads this
    {
      Store(lastNow, buckets, maxKeys)
    }

    method CheckAndConsume(key: RateLimitKey, limit: RateLimit, now: nat) returns (answer: Answer)
      requires limit.windowSeconds > 0
      modifies this
      ensures (View(), answer) == Consume(old(View()), Call(key, limit, now))
    {
      if lastNow.Some? && now < lastNow.value {
        return StateError;
      }
      lastNow := Some(now);
      var windowStart := now - now % limit.windowSeconds;
      var previous := if key in buckets then buckets[key] else Bucket(windowStart, 0);
      var count := previous.count;
      if previous.start != windowStart {
        count := 0;
      }
      if count >= limit.maxCalls {
        buckets := buckets[key := Bucket(windowStart, count)];
        return Exhausted;
      }
      if key !in buckets && |buckets| >= maxKeys {
        buckets := map k | k in buckets && buckets[k].start == windowStart :: buckets[k];
      }
      if key !in buckets && |buckets| >= maxKeys {
        return StateError;
      }
      buckets := buckets[key := Bucket(windowStart, count + 1)];
      return Allowed;
    }
  }

  /** The Python store, which collects stale keys in a list and deletes them one by one. */
  class PythonRateLimitStore {
    const maxKeys: nat
    var lastNow: Option<nat>
    var buckets: Buckets

    constructor (maxKeys: nat)
      requires maxKeys >= 1
      ensures View() == Empty(maxKeys)
    {
      this.maxKeys := maxKeys;
      lastNow, buckets := None, map[];
    }

    function View(): Store
      reads this
    {
      Store(lastNow, buckets, maxKeys)
    }

    method CheckAndConsume(key: RateLimitKey, limit: RateLimit, now: int) returns (answer: Answer)
      requires limit.windowSeconds > 0
      modifies this
      ensures now < 0 ==> answer == StateError && View() == old(View())
      ensures now >= 0 ==> (View(), answer) == Consume(old(View()), Call(key, limit, now))
    {
      if now < 0 || (lastNow.Some? && now < lastNow.value) {
        return StateError;
      }
      lastNow := Some(now);
      var windowStart: nat := now - now % limit.windowSeconds;
      var previous := if key in buckets then buckets[key] else Bucket(windowStart, 0);
      var count := if previous.start != windowStart then 0 else previous.count;
      if count >= limit.maxCalls {
        buckets := buckets[key := Bucket(windowStart, count)];
        return Exhausted;
      }
      if key !in buckets && |buckets| >= maxKeys {
        PruneStaleBuckets(windowStart);
      }
      if key !in buckets && |buckets| >= maxKeys {
        return StateError;
      }
      buckets := buckets[key := Bucket(windowStart, count + 1)];
      return Allowed;
    }

    method PruneStaleBuckets(windowStart: nat)
      modifies this`buckets
      ensures buckets == Retain(old(buckets), windowStart)
    {
      var stale: seq<RateLimitKey> := [];
      var unseen := buckets.Keys;
      while unseen != {}
        invariant unseen <= buckets.Keys
        invariant forall key :: key in stale <==> key in buckets && key !in unseen && buckets[key].start != windowStart
      {
        var key :| key in unseen;
        unseen := unseen - {key};
        if buckets[key].start != windowStart {
          stale := stale + [key];
        }
      }
      for i := 0 to |stale|
        invariant forall key :: key in buckets <==> key in old(buckets) && key !in stale[..i]
        invariant forall key :: key in buckets ==> buckets[key] == old(buckets)[key]
      {
        buckets := buckets - {stale[i]};
      }
    }
  }
}
