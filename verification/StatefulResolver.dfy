/** The resolver of version 2 policies: the winning allow rule charges its quota, and nothing else does. */
module StatefulResolver {
  import opened Common
  import opened Conditions
  import opened Resolution
  import opened RateLimitSpec
  import opened RateLimitStores
  import opened PolicySpec
  import opened Quota

  function KeyOf(digest: string, ruleIndex: nat, call: PolicyCall): RateLimitKey {
    RateLimitKey(digest, ruleIndex, call.agent, call.user, call.tool)
  }

  /** The call of the quota store that resolving causes, if any. */
  ghost function Charge(engine: Engine, digest: string, call: PolicyCall, utcNow: int, clock: nat): Option<Call> {
    var (decision, selected) := Resolved(engine, call, utcNow);
    if selected.Some? && decision.action == Allow && selected.value in engine.rateLimits
    then Some(Call(KeyOf(digest, selected.value, call), engine.rateLimits[selected.value], clock))
    else None
  }

  class RateLimitedPolicyStore {
    const engine: Engine
    const policyDigest: string
    const stateStore: InMemoryRateLimitStore

    predicate Valid() {
      LimitsSet(engine)
    }

    constructor (engine: Engine, policyDigest: string, stateStore: InMemoryRateLimitStore, ghost document: Yaml)
      requires Parse(document, 2) == Some(engine)
      ensures Valid() && this.engine == engine && this.policyDigest == policyDigest && this.stateStore == stateStore
    {
      ParsedPolicyIsWellFormed(document, 2);
      this.engine, this.policyDigest, this.stateStore := engine, policyDigest, stateStore;
    }

    /** An error of the store is an error of the resolver, and an exhausted quota is "throttle". */
    method Resolve(call: PolicyCall, utcNow: int, clock: nat) returns (r: Result<Decision, ()>)
      requires Valid()
      modifies stateStore
      ensures stateStore.View() == AfterLookup(old(stateStore.View()), engine, policyDigest, Lookup(call, utcNow, clock))
      ensures var charge := Charge(engine, policyDigest, call, utcNow, clock);
        var decision := Resolved(engine, call, utcNow).0;
        if charge.None? then
          r == Ok(decision)
        else
          && charge.value.limit.windowSeconds > 0
          && r == match Consume(old(stateStore.View()), charge.value).1
                  case Allowed => Ok(decision)
                  case Exhausted => Ok(Decision(Throttle, decision.matchedRules))
                  case StateError => Err(())
      ensures r == AnswerOf(old(stateStore.View()), engine, policyDigest, Lookup(call, utcNow, clock))
    {
      var decision, selected := ResolveWithSelectedRule(engine, call, utcNow);
      ResolvesUniquely(engine, call, utcNow, decision, selected);
      if selected.None? || decision.action != Allow || selected.value !in engine.rateLimits {
        return Ok(decision);
      }
      var key := KeyOf(policyDigest, selected.value, call);
      var answer := stateStore.CheckAndConsume(key, engine.rateLimits[selected.value], clock);
      match answer
      case Allowed => return Ok(decision);
      case Exhausted => return Ok(Decision(Throttle, decision.matchedRules));
      case StateError => return Err(());
    }
  }

  /**
   In a parsed policy a limit belongs to the selected rule only if that rule
   allows. So the quota is charged exactly when the selected rule has a limit,
   and it is charged at the clock reading, with the limit of that rule, for the
   policy, the rule, and the agent, user and tool of the call.
   */
  lemma ChargedExactlyForLimitedRule(document: Yaml, digest: string, call: PolicyCall, utcNow: int, clock: nat)
    requires Parse(document, 2).Some?
    ensures var engine := Parse(document, 2).value;
      var selected := Resolved(engine, call, utcNow).1;
      var charge := Charge(engine, digest, call, utcNow, clock);
      && (charge.Some? <==> selected.Some? && selected.value in engine.rateLimits)
      && (charge.Some? ==>
            && charge.value.key == RateLimitKey(digest, selected.value, call.agent, call.user, call.tool)
            && charge.value.now == clock
            && selected.value < |engine.rules|
            && engine.rules[selected.value].action == Allow
            && Applies(engine.rules[selected.value], call, utcNow)
            && charge.value.limit == engine.rateLimits[selected.value]
            && charge.value.limit.maxCalls >= 1 && charge.value.limit.windowSeconds >= 1)
  {
    var engine := Parse(document, 2).value;
    ParsedPolicyIsWellFormed(document, 2);
    var (decision, selected) := Resolved(engine, call, utcNow);
    if selected.Some? {
      SelectedRuleDecides(engine, call, utcNow);
    }
  }

  /** The selected rule is the rule with the selected index; it applies, and its action is the decision's. */
  lemma SelectedRuleDecides(engine: Engine, call: PolicyCall, utcNow: int)
    requires forall k :: 0 <= k < |engine.rules| ==> engine.rules[k].ruleIndex == k
    requires Resolved(engine, call, utcNow).1.Some?
    ensures var (decision, selected) := Resolved(engine, call, utcNow);
      && selected.value < |engine.rules|
      && engine.rules[selected.value].action == decision.action
      && Applies(engine.rules[selected.value], call, utcNow)
  {
    var (decision, selected) := Resolved(engine, call, utcNow);
    var matching := Matching(engine.rules, call, utcNow);
    var best: nat :| IsFirstBest(matching, best)
      && decision.action == matching[best].action && selected == Some(matching[best].ruleIndex);
    InMatching(engine.rules, call, utcNow, matching[best]);
    assert matching[best] in matching;
    var k :| 0 <= k < |engine.rules| && engine.rules[k] == matching[best];
    assert engine.rules[k].ruleIndex == k;
  }

  // ----- whole runs of one parsed policy -----

  /** A call to resolve, with the instant for its conditions and the clock reading for its quota. */
  datatype Lookup = Lookup(call: PolicyCall, utcNow: int, clock: nat)

  /** The calls of the quota store that a run of lookups causes. */
  ghost function Charges(engine: Engine, digest: string, lookups: seq<Lookup>): seq<Call>
    decreases |lookups|
  {
    if lookups == [] then []
    else
      var last := lookups[|lookups| - 1];
      var charge := Charge(engine, digest, last.call, last.utcNow, last.clock);
      Charges(engine, digest, lookups[..|lookups| - 1]) + if charge.Some? then [charge.value] else []
  }

  predicate LimitsSet(engine: Engine) {
    forall index :: index in engine.rateLimits ==>
      engine.rateLimits[index].maxCalls >= 1 && engine.rateLimits[index].windowSeconds >= 1
  }

  /** The store after a lookup, as `Resolve` leaves it. */
  ghost function AfterLookup(s: Store, engine: Engine, digest: string, l: Lookup): Store
    requires LimitsSet(engine)
  {
    var charge := Charge(engine, digest, l.call, l.utcNow, l.clock);
    if charge.None? then s else Consume(s, charge.value).0
  }

  /** What resolving a lookup answers. */
  ghost function AnswerOf(s: Store, engine: Engine, digest: string, l: Lookup): Result<Decision, ()>
    requires LimitsSet(engine)
  {
    var decision, charge := Resolved(engine, l.call, l.utcNow).0, Charge(engine, digest, l.call, l.utcNow, l.clock);
    if charge.None? then Ok(decision)
    else
      match Consume(s, charge.value).1
      case Allowed => Ok(decision)
      case Exhausted => Ok(Decision(Throttle, decision.matchedRules))
      case StateError => Err(())
  }

  ghost function AfterLookups(maxKeys: nat, engine: Engine, digest: string, lookups: seq<Lookup>): Store
    requires LimitsSet(engine)
    decreases |lookups|
  {
    if lookups == [] then Empty(maxKeys)
    else AfterLookup(AfterLookups(maxKeys, engine, digest, lookups[..|lookups| - 1]), engine, digest, lookups[|lookups| - 1])
  }

  /** The limit of the rule that a key names; keys of rules without a limit are never charged. */
  function LimitOf(engine: Engine, fallback: Limit): RateLimitKey -> Limit
    requires LimitsSet(engine)
  {
    (key: RateLimitKey) => if key.ruleIndex in engine.rateLimits then engine.rateLimits[key.ruleIndex] else fallback
  }

  lemma {:induction false} ChargesFollowLimits(engine: Engine, digest: string, lookups: seq<Lookup>, fallback: Limit, maxKeys: nat)
    requires LimitsSet(engine)
    ensures var charges := Charges(engine, digest, lookups);
      && ValidCalls(charges) && LimitsPerKey(charges, LimitOf(engine, fallback))
      && AfterLookups(maxKeys, engine, digest, lookups) == After(maxKeys, charges)
    decreases |lookups|
  {
    if lookups != [] {
      var init, last := lookups[..|lookups| - 1], lookups[|lookups| - 1];
      ChargesFollowLimits(engine, digest, init, fallback, maxKeys);
      var charge := Charge(engine, digest, last.call, last.utcNow, last.clock);
      var charges := Charges(engine, digest, init);
      if charge.Some? {
        assert (charges + [charge.value])[..|charges|] == charges;
      } else {
        assert charges + [] == charges;
      }
    }
  }

  /**
   Over every run of lookups of one parsed policy the store keeps within its
   capacity, and no key of a rule gets more than that rule's quota in a window,
   and one more for each eviction of its bucket within the window.
   */
  lemma PolicyKeepsQuotas(document: Yaml, digest: string, lookups: seq<Lookup>, maxKeys: nat, key: RateLimitKey, at: nat)
    requires Parse(document, 2).Some? && maxKeys > 0
    requires key.ruleIndex in Parse(document, 2).value.rateLimits
    ensures var engine := Parse(document, 2).value;
      var limit, charges := engine.rateLimits[key.ruleIndex], Charges(engine, digest, lookups);
      && LimitsSet(engine) && ValidCalls(charges)
      && |AfterLookups(maxKeys, engine, digest, lookups).buckets| <= maxKeys
      && WithinEvictionBound(maxKeys, charges, limit, key, WindowStart(at, limit.windowSeconds))
  {
    var engine := Parse(document, 2).value;
    ParsedPolicyIsWellFormed(document, 2);
    var limits := LimitOf(engine, RateLimit(1, 1));
    var charges := Charges(engine, digest, lookups);
    ChargesFollowLimits(engine, digest, lookups, RateLimit(1, 1), maxKeys);
    CapacityHolds(maxKeys, charges, limits);
    QuotaWithEvictions(maxKeys, charges, limits, key, at);
  }

  /** If all rules of the policy share one window length, no key ever gets more than its rule's quota in a window. */
  lemma UniformPolicyKeepsQuotas(document: Yaml, digest: string, lookups: seq<Lookup>, maxKeys: nat,
                                 key: RateLimitKey, at: nat)
    requires Parse(document, 2).Some? && key.ruleIndex in Parse(document, 2).value.rateLimits
    requires var engine := Parse(document, 2).value;
      forall index :: index in engine.rateLimits ==>
        engine.rateLimits[index].windowSeconds == engine.rateLimits[key.ruleIndex].windowSeconds
    ensures var engine := Parse(document, 2).value;
      var limit, charges := engine.rateLimits[key.ruleIndex], Charges(engine, digest, lookups);
      && LimitsSet(engine) && ValidCalls(charges)
      && AllowedDuring(maxKeys, charges, key, WindowStart(at, limit.windowSeconds), limit.windowSeconds) <= limit.maxCalls
  {
    var engine := Parse(document, 2).value;
    ParsedPolicyIsWellFormed(document, 2);
    var limit := engine.rateLimits[key.ruleIndex];
    var limits, charges := LimitOf(engine, limit), Charges(engine, digest, lookups);
    ChargesFollowLimits(engine, digest, lookups, limit, maxKeys);
    UniformWindowsNeverEvictLive(maxKeys, charges, limits, limit.windowSeconds);
    QuotaHolds(maxKeys, charges, limits, key, at);
  }
}
