/** Quotas do not touch each other: with room for the keys, an answer depends on the calls of its own key only. */
module Independence {
  import opened Common
  import opened Resolution
  import opened RateLimitSpec
  import opened Quota
  import opened QuotaAnswers
  import opened StatefulResolver

  // ----- the calls of the store -----

  /** The clock readings never go back. */
  predicate InOrder(calls: seq<Call>) {
    forall i, j :: 0 <= i < j < |calls| ==> calls[i].now <= calls[j].now
  }

  function KeysOf(calls: seq<Call>): set<RateLimitKey> {
    set i | 0 <= i < |calls| :: calls[i].key
  }

  /** The calls for `key`, in their order. */
  function Only(calls: seq<Call>, key: RateLimitKey): (only: seq<Call>)
    ensures forall c :: c in only <==> c in calls && c.key == key
    decreases |calls|
  {
    if calls == [] then []
    else
      var last := calls[|calls| - 1];
      Only(calls[..|calls| - 1], key) + if last.key == key then [last] else []
  }

  lemma OnlyOneMore(calls: seq<Call>, c: Call, key: RateLimitKey)
    ensures Only(calls + [c], key) == Only(calls, key) + if c.key == key then [c] else []
  {
    assert (calls + [c])[..|calls|] == calls;
  }

  /** Both stores remember the same of `key`. */
  predicate SameBucket(s: Store, t: Store, key: RateLimitKey) {
    && (key in s.buckets <==> key in t.buckets)
    && (key in s.buckets ==> s.buckets[key] == t.buckets[key])
  }

  /** The reading is in order, and nothing has to make room for the key. */
  predicate Undisturbed(s: Store, c: Call) {
    !Regresses(s, c.now) && !MustEvict(s, c.key)
  }

  /** Stores that remember the same of a key answer its call alike and remember the same of it afterwards. */
  lemma AnswersAlike(s: Store, t: Store, c: Call)
    requires c.limit.windowSeconds > 0 && SameBucket(s, t, c.key) && Undisturbed(s, c) && Undisturbed(t, c)
    ensures Consume(s, c).1 == Consume(t, c).1
    ensures SameBucket(Consume(s, c).0, Consume(t, c).0, c.key)
  {
  }

  lemma OthersKept(s: Store, c: Call, key: RateLimitKey)
    requires c.limit.windowSeconds > 0 && Undisturbed(s, c) && c.key != key
    ensures SameBucket(s, Consume(s, c).0, key)
  {
  }

  /** With an ordered clock and room for its key, a call is undisturbed. */
  lemma RoomForAll(maxKeys: nat, calls: seq<Call>, c: Call)
    requires ValidCalls(calls) && InOrder(calls + [c]) && |KeysOf(calls + [c])| <= maxKeys
    requires After(maxKeys, calls).buckets.Keys <= KeysOf(calls)
    ensures Undisturbed(After(maxKeys, calls), c)
  {
    var all, s := calls + [c], After(maxKeys, calls);
    assert all[|calls|] == c;
    assert forall i :: 0 <= i < |calls| ==> all[i] == calls[i];
    RegressesExactly(maxKeys, calls, c.now);
    CapacityIsFixed(maxKeys, calls);
    if c.key !in s.buckets {
      assert s.buckets.Keys + {c.key} <= KeysOf(all);
      SubsetSize(s.buckets.Keys + {c.key}, KeysOf(all));
      assert |s.buckets.Keys + {c.key}| == |s.buckets| + 1;
    }
  }

  lemma BucketsAreOfCalls(maxKeys: nat, calls: seq<Call>, c: Call)
    requires ValidCalls(calls) && c.limit.windowSeconds > 0
    requires After(maxKeys, calls).buckets.Keys <= KeysOf(calls)
    ensures ValidCalls(calls + [c]) && After(maxKeys, calls + [c]).buckets.Keys <= KeysOf(calls + [c])
  {
    OneMore(calls, c);
    var all := calls + [c];
    assert all[|calls|] == c;
    assert forall i :: 0 <= i < |calls| ==> all[i] == calls[i];
    forall key | key in After(maxKeys, calls).buckets ensures key in KeysOf(all) {
      var i :| 0 <= i < |calls| && calls[i].key == key;
      assert all[i].key == key;
    }
  }

  lemma OnlyHasRoom(maxKeys: nat, calls: seq<Call>, c: Call)
    requires ValidCalls(calls + [c]) && InOrder(calls + [c]) && |KeysOf(calls + [c])| <= maxKeys
    ensures var only := Only(calls, c.key);
      ValidCalls(only) && InOrder(only + [c]) && |KeysOf(only + [c])| <= maxKeys
  {
    var all, only := calls + [c], Only(calls, c.key);
    assert all[|calls|] == c;
    OnlyInOrder(all, c.key);
    OnlyOneMore(calls, c, c.key);
    assert forall k :: k in KeysOf(only + [c]) ==> k == c.key;
    assert (only + [c])[|only|] == c;
    assert KeysOf(only + [c]) == {c.key};
    assert c.key in KeysOf(all);
    SubsetSize({c.key}, KeysOf(all));
    forall i | 0 <= i < |only| ensures only[i].limit.windowSeconds > 0 {
      assert only[i] in calls;
      var j :| 0 <= j < |calls| && calls[j] == only[i];
      assert all[j] == only[i];
    }
  }

  lemma {:induction false} OnlyInOrder(calls: seq<Call>, key: RateLimitKey)
    requires InOrder(calls)
    ensures InOrder(Only(calls, key))
    decreases |calls|
  {
    if calls != [] {
      var init, last := calls[..|calls| - 1], calls[|calls| - 1];
      OnlyInOrder(init, key);
      var only := Only(init, key);
      forall i | 0 <= i < |only| ensures only[i].now <= last.now {
        assert only[i] in init;
      }
    }
  }

  lemma Earlier(maxKeys: nat, calls: seq<Call>, c: Call)
    requires InOrder(calls + [c]) && |KeysOf(calls + [c])| <= maxKeys
    ensures InOrder(calls) && |KeysOf(calls)| <= maxKeys
  {
    var all := calls + [c];
    assert forall i :: 0 <= i < |calls| ==> all[i] == calls[i];
    forall key | key in KeysOf(calls) ensures key in KeysOf(all) {
      var i :| 0 <= i < |calls| && calls[i].key == key;
      assert all[i].key == key;
    }
    SubsetSize(KeysOf(calls), KeysOf(all));
  }

  lemma {:induction false} BucketsOfCalls(maxKeys: nat, calls: seq<Call>)
    requires ValidCalls(calls)
    ensures After(maxKeys, calls).buckets.Keys <= KeysOf(calls)
    decreases |calls|
  {
    if calls != [] {
      var init, c := calls[..|calls| - 1], calls[|calls| - 1];
      assert init + [c] == calls;
      BucketsOfCalls(maxKeys, init);
      BucketsAreOfCalls(maxKeys, init, c);
    }
  }

  lemma OneMoreOwn(maxKeys: nat, calls: seq<Call>, c: Call, key: RateLimitKey)
    requires ValidCalls(calls + [c]) && InOrder(calls + [c]) && |KeysOf(calls + [c])| <= maxKeys
    requires ValidCalls(calls) && ValidCalls(Only(calls, key))
    requires SameBucket(After(maxKeys, calls), After(maxKeys, Only(calls, key)), key)
    ensures ValidCalls(Only(calls + [c], key))
    ensures SameBucket(After(maxKeys, calls + [c]), After(maxKeys, Only(calls + [c], key)), key)
  {
    var only := Only(calls, key);
    assert (calls + [c])[|calls|] == c;
    OneMore(calls, c);
    OnlyOneMore(calls, c, key);
    BucketsOfCalls(maxKeys, calls);
    RoomForAll(maxKeys, calls, c);
    if c.key == key {
      OneMore(only, c);
      OnlyHasRoom(maxKeys, calls, c);
      BucketsOfCalls(maxKeys, only);
      RoomForAll(maxKeys, only, c);
      AnswersAlike(After(maxKeys, calls), After(maxKeys, only), c);
    } else {
      assert only + [] == only;
      OthersKept(After(maxKeys, calls), c, key);
    }
  }

  /** The store remembers of a key what it would if only the calls of that key had been made. */
  lemma {:induction false} BucketIsOwn(maxKeys: nat, calls: seq<Call>, key: RateLimitKey)
    requires ValidCalls(calls) && InOrder(calls) && |KeysOf(calls)| <= maxKeys
    ensures ValidCalls(Only(calls, key))
    ensures SameBucket(After(maxKeys, calls), After(maxKeys, Only(calls, key)), key)
    decreases |calls|
  {
    if calls != [] {
      var init, c := calls[..|calls| - 1], calls[|calls| - 1];
      assert init + [c] == calls;
      Earlier(maxKeys, init, c);
      BucketIsOwn(maxKeys, init, key);
      OneMoreOwn(maxKeys, init, c, key);
    }
  }

  /** With an ordered clock and room for all keys, an answer depends on the earlier calls of the same key only. */
  lemma AnswerDependsOnOwnCalls(maxKeys: nat, calls: seq<Call>, c: Call)
    requires ValidCalls(calls + [c]) && InOrder(calls + [c]) && |KeysOf(calls + [c])| <= maxKeys
    ensures ValidCalls(calls) && ValidCalls(Only(calls, c.key)) && c.limit.windowSeconds > 0
    ensures Consume(After(maxKeys, calls), c).1 == Consume(After(maxKeys, Only(calls, c.key)), c).1
  {
    assert (calls + [c])[|calls|] == c;
    assert forall i :: 0 <= i < |calls| ==> (calls + [c])[i] == calls[i];
    var only := Only(calls, c.key);
    Earlier(maxKeys, calls, c);
    BucketIsOwn(maxKeys, calls, c.key);
    BucketsOfCalls(maxKeys, calls);
    RoomForAll(maxKeys, calls, c);
    OnlyHasRoom(maxKeys, calls, c);
    BucketsOfCalls(maxKeys, only);
    RoomForAll(maxKeys, only, c);
    AnswersAlike(After(maxKeys, calls), After(maxKeys, only), c);
  }

  // ----- the lookups of a policy -----

  /** Two charges use the same quota exactly if policy, selected rule, agent, user and tool are the same. */
  lemma SameQuotaExactly(engine: Engine, digest: string, l: Lookup, engine': Engine, digest': string, l': Lookup)
    requires Charge(engine, digest, l.call, l.utcNow, l.clock).Some?
    requires Charge(engine', digest', l'.call, l'.utcNow, l'.clock).Some?
    ensures
      var charge := Charge(engine, digest, l.call, l.utcNow, l.clock).value;
      var charge' := Charge(engine', digest', l'.call, l'.utcNow, l'.clock).value;
      charge.key == charge'.key <==>
        && digest == digest'
        && Resolved(engine, l.call, l.utcNow).1 == Resolved(engine', l'.call, l'.utcNow).1
        && l.call.agent == l'.call.agent && l.call.user == l'.call.user && l.call.tool == l'.call.tool
  {
  }

  /** The lookup selects an allow rule with a limit. */
  ghost predicate IsCharged(engine: Engine, l: Lookup) {
    var (decision, selected) := Resolved(engine, l.call, l.utcNow);
    selected.Some? && decision.action == Allow && selected.value in engine.rateLimits
  }

  /** The lookup `m` uses the quota that `l` uses. */
  ghost predicate SharesQuota(engine: Engine, m: Lookup, l: Lookup) {
    && IsCharged(engine, m)
    && Resolved(engine, m.call, m.utcNow).1 == Resolved(engine, l.call, l.utcNow).1
    && m.call.agent == l.call.agent && m.call.user == l.call.user && m.call.tool == l.call.tool
  }

  /** The lookups that use the quota that `l` uses, in their order. */
  ghost function Sharing(engine: Engine, lookups: seq<Lookup>, l: Lookup): seq<Lookup>
    decreases |lookups|
  {
    if lookups == [] then []
    else
      var last := lookups[|lookups| - 1];
      Sharing(engine, lookups[..|lookups| - 1], l) + if SharesQuota(engine, last, l) then [last] else []
  }

  predicate ClockInOrder(lookups: seq<Lookup>) {
    forall i, j :: 0 <= i < j < |lookups| ==> lookups[i].clock <= lookups[j].clock
  }

  lemma ChargesOneMore(engine: Engine, digest: string, lookups: seq<Lookup>, l: Lookup)
    ensures Charges(engine, digest, lookups + [l]) ==
      var charge := Charge(engine, digest, l.call, l.utcNow, l.clock);
      Charges(engine, digest, lookups) + if charge.Some? then [charge.value] else []
  {
    assert (lookups + [l])[..|lookups|] == lookups;
  }

  /** The charges of the lookups that share a quota are the charges of its key. */
  lemma {:induction false} SharedCharges(engine: Engine, digest: string, lookups: seq<Lookup>, l: Lookup, key: RateLimitKey)
    requires Charge(engine, digest, l.call, l.utcNow, l.clock).Some?
    requires key == Charge(engine, digest, l.call, l.utcNow, l.clock).value.key
    ensures Charges(engine, digest, Sharing(engine, lookups, l)) == Only(Charges(engine, digest, lookups), key)
    decreases |lookups|
  {
    if lookups != [] {
      var init, m := lookups[..|lookups| - 1], lookups[|lookups| - 1];
      assert init + [m] == lookups;
      SharedCharges(engine, digest, init, l, key);
      OneMoreShared(engine, digest, init, m, l, key);
    }
  }

  lemma OneMoreShared(engine: Engine, digest: string, init: seq<Lookup>, m: Lookup, l: Lookup, key: RateLimitKey)
    requires Charge(engine, digest, l.call, l.utcNow, l.clock).Some?
    requires key == Charge(engine, digest, l.call, l.utcNow, l.clock).value.key
    requires Charges(engine, digest, Sharing(engine, init, l)) == Only(Charges(engine, digest, init), key)
    ensures Charges(engine, digest, Sharing(engine, init + [m], l)) == Only(Charges(engine, digest, init + [m]), key)
  {
    var charges, sharing := Charges(engine, digest, init), Sharing(engine, init, l);
    var charge := Charge(engine, digest, m.call, m.utcNow, m.clock);
    assert (init + [m])[..|init|] == init;
    ChargesOneMore(engine, digest, init, m);
    ChargesOneMore(engine, digest, sharing, m);
    if charge.Some? {
      SameQuotaExactly(engine, digest, m, engine, digest, l);
      OnlyOneMore(charges, charge.value, key);
      assert Only(charges, key) + [] == Only(charges, key);
      assert sharing + [] == sharing;
    } else {
      assert charges + [] == charges && sharing + [] == sharing;
    }
  }

  lemma {:induction false} ChargesInOrder(engine: Engine, digest: string, lookups: seq<Lookup>)
    requires ClockInOrder(lookups)
    ensures InOrder(Charges(engine, digest, lookups))
    ensures forall c :: c in Charges(engine, digest, lookups) ==> lookups != [] && c.now <= lookups[|lookups| - 1].clock
    decreases |lookups|
  {
    if lookups != [] {
      var init := lookups[..|lookups| - 1];
      ChargesInOrder(engine, digest, init);
      assert init != [] ==> init[|init| - 1] == lookups[|init| - 1];
      assert forall c :: c in Charges(engine, digest, init) ==> c.now <= lookups[|lookups| - 1].clock;
    }
  }

  /**
   With an ordered clock and room for the keys of the run, what a lookup answers
   depends only on the earlier lookups with the same rule, agent, user and tool.
   */
  lemma LookupDependsOnItsQuota(engine: Engine, digest: string, maxKeys: nat, lookups: seq<Lookup>, l: Lookup)
    requires LimitsSet(engine) && ClockInOrder(lookups + [l])
    requires |KeysOf(Charges(engine, digest, lookups + [l]))| <= maxKeys
    ensures AnswerOf(AfterLookups(maxKeys, engine, digest, lookups), engine, digest, l)
         == AnswerOf(AfterLookups(maxKeys, engine, digest, Sharing(engine, lookups, l)), engine, digest, l)
  {
    var charge := Charge(engine, digest, l.call, l.utcNow, l.clock);
    if charge.Some? {
      var charges := Charges(engine, digest, lookups);
      ChargesOneMore(engine, digest, lookups, l);
      ChargesFollowLimits(engine, digest, lookups, RateLimit(1, 1), maxKeys);
      ChargesFollowLimits(engine, digest, lookups + [l], RateLimit(1, 1), maxKeys);
      ChargesFollowLimits(engine, digest, Sharing(engine, lookups, l), RateLimit(1, 1), maxKeys);
      ChargesInOrder(engine, digest, lookups + [l]);
      SharedCharges(engine, digest, lookups, l, charge.value.key);
      AnswerDependsOnOwnCalls(maxKeys, charges, charge.value);
    }
  }

  /** So the first lookup with its rule, agent, user and tool is never throttled by the others. */
  lemma FirstOfItsQuotaPasses(engine: Engine, digest: string, maxKeys: nat, lookups: seq<Lookup>, l: Lookup)
    requires LimitsSet(engine) && ClockInOrder(lookups + [l])
    requires |KeysOf(Charges(engine, digest, lookups + [l]))| <= maxKeys
    requires forall i :: 0 <= i < |lookups| ==> !SharesQuota(engine, lookups[i], l)
    ensures AnswerOf(AfterLookups(maxKeys, engine, digest, lookups), engine, digest, l)
         == Ok(Resolved(engine, l.call, l.utcNow).0)
  {
    LookupDependsOnItsQuota(engine, digest, maxKeys, lookups, l);
    NoneSharing(engine, lookups, l);
    assert AfterLookups(maxKeys, engine, digest, []) == Empty(maxKeys);
    AnswerOfEmpty(engine, digest, maxKeys, lookups, l);
  }

  lemma AnswerOfEmpty(engine: Engine, digest: string, maxKeys: nat, lookups: seq<Lookup>, l: Lookup)
    requires LimitsSet(engine) && |KeysOf(Charges(engine, digest, lookups + [l]))| <= maxKeys
    ensures AnswerOf(Empty(maxKeys), engine, digest, l) == Ok(Resolved(engine, l.call, l.utcNow).0)
  {
    ChargesOneMore(engine, digest, lookups, l);
    var charge := Charge(engine, digest, l.call, l.utcNow, l.clock);
    if charge.Some? {
      FirstIsAllowed(maxKeys, Charges(engine, digest, lookups), charge.value);
    }
  }

  lemma FirstIsAllowed(maxKeys: nat, calls: seq<Call>, c: Call)
    requires |KeysOf(calls + [c])| <= maxKeys && c.limit.maxCalls >= 1 && c.limit.windowSeconds >= 1
    ensures Consume(Empty(maxKeys), c).1 == Allowed
  {
    assert (calls + [c])[|calls|].key in KeysOf(calls + [c]);
    SubsetSize({c.key}, KeysOf(calls + [c]));
  }

  lemma {:induction false} NoneSharing(engine: Engine, lookups: seq<Lookup>, l: Lookup)
    requires forall i :: 0 <= i < |lookups| ==> !SharesQuota(engine, lookups[i], l)
    ensures Sharing(engine, lookups, l) == []
    decreases |lookups|
  {
    if lookups != [] {
      NoneSharing(engine, lookups[..|lookups| - 1], l);
    }
  }
}
