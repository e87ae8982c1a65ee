/** What a policy decides about a call, read off its rules by their positions. */
module Decisions {
  import opened Common
  import opened Conditions
  import opened Resolution

  /** The actions, strongest first. */
  const STRENGTHS: seq<Action> := [Deny, RequireApproval, Throttle, Redirect, Allow, Action.Log]

  predicate Stronger(a: Action, b: Action) {
    exists i, j :: 0 <= i < j < |STRENGTHS| && STRENGTHS[i] == a && STRENGTHS[j] == b
  }

  /** The numbers of the priority table put the actions into this order, and leave none out. */
  lemma PrioritiesRank(a: Action, b: Action)
    ensures a in STRENGTHS
    ensures ActionPriority(a) > ActionPriority(b) <==> Stronger(a, b)
  {
    assert STRENGTHS[0] == Deny && STRENGTHS[1] == RequireApproval && STRENGTHS[2] == Throttle;
    assert STRENGTHS[3] == Redirect && STRENGTHS[4] == Allow && STRENGTHS[5] == Action.Log;
    RankOf(a);
    RankOf(b);
    if ActionPriority(a) > ActionPriority(b) {
      assert STRENGTHS[6 - ActionPriority(a)] == a && STRENGTHS[6 - ActionPriority(b)] == b;
    }
  }

  lemma RankOf(a: Action)
    ensures 1 <= ActionPriority(a) <= 6 && STRENGTHS[6 - ActionPriority(a)] == a
    ensures forall i :: 0 <= i < |STRENGTHS| && STRENGTHS[i] == a ==> i == 6 - ActionPriority(a)
  {
  }

  /** The call has the attribute `key` with this value. */
  predicate HasAttribute(call: PolicyCall, key: string, value: string) {
    || (key == "agent" && call.agent == Some(value))
    || (key == "tool" && call.tool == Some(value))
    || (key == "user" && call.user == Some(value))
    || exists name :: name in call.context && key == "context." + name && call.context[name] == value
  }

  /** A target field names an attribute of the call, of whatever kind; nothing else ever matches. */
  lemma FieldMatchesExactly(key: string, value: string, call: PolicyCall)
    ensures FieldMatches(key, value, call) <==> HasAttribute(call, key, value)
  {
    assert forall name: string :: ("context." + name)[0] == 'c' && "context." <= "context." + name;
    if "context." <= key {
      var name := key[|"context."|..];
      assert key == "context." + name;
      assert forall other: string :: key == "context." + other ==> other == ("context." + other)[|"context."|..] == name;
    }
  }

  /** The rule covers the call: every field of its target is an attribute of it, and its condition holds. */
  ghost predicate Covers(rule: Rule, call: PolicyCall, now: int) {
    && (forall key :: key in rule.target ==> HasAttribute(call, key, rule.target[key]))
    && Holds(rule.condition, call, now)
  }

  lemma AppliesExactly(rule: Rule, call: PolicyCall, now: int)
    ensures Applies(rule, call, now) <==> Covers(rule, call, now)
  {
    forall key | key in rule.target
      ensures FieldMatches(key, rule.target[key], call) <==> HasAttribute(call, key, rule.target[key])
    {
      FieldMatchesExactly(key, rule.target[key], call);
    }
  }

  /** `ks` are the positions of the rules that cover the call, in ascending order. */
  ghost predicate Covering(rules: seq<Rule>, call: PolicyCall, now: int, ks: seq<nat>) {
    && (forall i, j :: 0 <= i < j < |ks| ==> ks[i] < ks[j])
    && (forall k: nat :: k in ks <==> k < |rules| && Covers(rules[k], call, now))
  }

  /** More target fields decide, and then the stronger action. */
  predicate Outranks(a: Rule, b: Rule) {
    |a.target| > |b.target| || (|a.target| == |b.target| && Stronger(a.action, b.action))
  }

  lemma BeatsExactly(a: Rule, b: Rule)
    ensures Beats(a, b) <==> Outranks(a, b)
  {
    PrioritiesRank(a.action, b.action);
  }

  ghost predicate SomeRuleDenies(engine: Engine, call: PolicyCall, now: int) {
    exists k: nat :: k < |engine.rules| && Covers(engine.rules[k], call, now) && engine.rules[k].action == Deny
  }

  ghost predicate NoRuleCovers(engine: Engine, call: PolicyCall, now: int) {
    forall k: nat :: k < |engine.rules| ==> !Covers(engine.rules[k], call, now)
  }

  /** The rule at `k` covers the call, no covering rule outranks it, and it outranks all earlier ones. */
  ghost predicate IsDeciding(engine: Engine, call: PolicyCall, now: int, k: nat) {
    && k < |engine.rules| && Covers(engine.rules[k], call, now)
    && (forall j: nat :: j < |engine.rules| && Covers(engine.rules[j], call, now) ==>
          !Outranks(engine.rules[j], engine.rules[k]) && (j < k ==> Outranks(engine.rules[k], engine.rules[j])))
  }

  /** The rule allows, but only within a quota. */
  predicate IsLimited(engine: Engine, rule: Rule) {
    rule.action == Allow && rule.ruleIndex in engine.rateLimits
  }

  /** The action where no quota can be charged: deny first, then the deciding rule, and else the default. */
  ghost predicate ActionIs(engine: Engine, call: PolicyCall, now: int, action: Action) {
    if SomeRuleDenies(engine, call, now) then action == Deny
    else if NoRuleCovers(engine, call, now) then action == engine.defaultAction
    else exists k: nat :: IsDeciding(engine, call, now, k)
           && action == if IsLimited(engine, engine.rules[k]) then Throttle else engine.rules[k].action
  }

  /** The indices are those of the covering rules, in their order. */
  ghost predicate MatchedAre(engine: Engine, call: PolicyCall, now: int, indices: seq<nat>) {
    exists ks: seq<nat> :: Covering(engine.rules, call, now, ks) && AreIndices(engine.rules, ks, indices)
  }

  predicate AreIndices(rules: seq<Rule>, ks: seq<nat>, indices: seq<nat>) {
    |indices| == |ks| && forall i :: 0 <= i < |ks| ==> ks[i] < |rules| && indices[i] == rules[ks[i]].ruleIndex
  }

  /** What the policy decides where no quota can be charged. */
  ghost predicate Decides(engine: Engine, call: PolicyCall, now: int, d: Decision) {
    ActionIs(engine, call, now, d.action) && MatchedAre(engine, call, now, d.matchedRules)
  }

  // ----- the decision that is computed -----

  /** `ks` are the positions behind the list of applying rules. */
  ghost predicate StandsBehind(rules: seq<Rule>, ks: seq<nat>, matching: seq<Rule>) {
    |matching| == |ks| && forall i :: 0 <= i < |ks| ==> ks[i] < |rules| && matching[i] == rules[ks[i]]
  }

  lemma {:induction false} CoveringPositions(rules: seq<Rule>, call: PolicyCall, now: int) returns (ks: seq<nat>)
    ensures Covering(rules, call, now, ks) && StandsBehind(rules, ks, Matching(rules, call, now))
    decreases |rules|
  {
    if rules == [] {
      ks := [];
    } else {
      var last := |rules| - 1;
      var init := CoveringPositions(rules[..last], call, now);
      AppliesExactly(rules[last], call, now);
      ks := if Applies(rules[last], call, now) then init + [last] else init;
      OneMorePosition(rules, call, now, init, ks);
    }
  }

  lemma OneMorePosition(rules: seq<Rule>, call: PolicyCall, now: int, init: seq<nat>, ks: seq<nat>)
    requires rules != [] && Covering(rules[..|rules| - 1], call, now, init)
    requires ks == if Covers(rules[|rules| - 1], call, now) then init + [|rules| - 1] else init
    ensures Covering(rules, call, now, ks)
  {
    var last := |rules| - 1;
    forall k: nat ensures k in ks <==> k < |rules| && Covers(rules[k], call, now) {
      assert k in ks <==> k in init || (k == last && Covers(rules[last], call, now));
      if k < last {
        assert rules[k] == rules[..last][k];
      }
    }
    assert forall i :: 0 <= i < |init| ==> init[i] in init;
  }

  lemma DeniesExactly(engine: Engine, call: PolicyCall, now: int, ks: seq<nat>)
    requires Covering(engine.rules, call, now, ks)
    requires StandsBehind(engine.rules, ks, Matching(engine.rules, call, now))
    ensures HasDeny(Matching(engine.rules, call, now)) <==> SomeRuleDenies(engine, call, now)
    ensures Matching(engine.rules, call, now) == [] <==> NoRuleCovers(engine, call, now)
  {
    var matching := Matching(engine.rules, call, now);
    if i :| 0 <= i < |matching| && matching[i].action == Deny {
      assert ks[i] in ks;
    }
    if k: nat :| k < |engine.rules| && Covers(engine.rules[k], call, now) && engine.rules[k].action == Deny {
      assert k in ks;
      var i :| 0 <= i < |ks| && ks[i] == k;
      assert matching[i].action == Deny;
    }
    if ks != [] {
      assert ks[0] in ks;
    }
    if k: nat :| k < |engine.rules| && Covers(engine.rules[k], call, now) {
      assert k in ks;
    }
  }

  lemma FirstBestDecides(engine: Engine, call: PolicyCall, now: int, ks: seq<nat>, best: nat)
    requires Covering(engine.rules, call, now, ks)
    requires StandsBehind(engine.rules, ks, Matching(engine.rules, call, now))
    requires IsFirstBest(Matching(engine.rules, call, now), best)
    ensures IsDeciding(engine, call, now, ks[best])
  {
    var matching := Matching(engine.rules, call, now);
    assert ks[best] in ks;
    forall j: nat | j < |engine.rules| && Covers(engine.rules[j], call, now)
      ensures !Outranks(engine.rules[j], engine.rules[ks[best]])
      ensures j < ks[best] ==> Outranks(engine.rules[ks[best]], engine.rules[j])
    {
      assert j in ks;
      var i :| 0 <= i < |ks| && ks[i] == j;
      BeatsExactly(matching[i], matching[best]);
      BeatsExactly(matching[best], matching[i]);
    }
  }

  lemma DecidingIsUnique(engine: Engine, call: PolicyCall, now: int, k: nat, k': nat)
    requires IsDeciding(engine, call, now, k) && IsDeciding(engine, call, now, k')
    ensures k == k'
  {
  }

  lemma ActionIsUnique(engine: Engine, call: PolicyCall, now: int, a: Action, b: Action)
    requires ActionIs(engine, call, now, a) && ActionIs(engine, call, now, b)
    ensures a == b
  {
    if !SomeRuleDenies(engine, call, now) && !NoRuleCovers(engine, call, now) {
      var k: nat :| IsDeciding(engine, call, now, k)
        && a == if IsLimited(engine, engine.rules[k]) then Throttle else engine.rules[k].action;
      var k': nat :| IsDeciding(engine, call, now, k')
        && b == if IsLimited(engine, engine.rules[k']) then Throttle else engine.rules[k'].action;
      DecidingIsUnique(engine, call, now, k, k');
    }
  }

  /** Before any quota is looked at: which action, and which rule is selected. */
  lemma ResolvedExactly(engine: Engine, call: PolicyCall, now: int)
    ensures var (decision, selected) := Resolved(engine, call, now);
      && MatchedAre(engine, call, now, decision.matchedRules)
      && (if SomeRuleDenies(engine, call, now) then decision.action == Deny && selected == None
          else if NoRuleCovers(engine, call, now) then decision.action == engine.defaultAction && selected == None
          else exists k: nat :: IsDeciding(engine, call, now, k)
                 && decision.action == engine.rules[k].action && selected == Some(engine.rules[k].ruleIndex))
  {
    var ks := CoveringPositions(engine.rules, call, now);
    DeniesExactly(engine, call, now, ks);
    var matching := Matching(engine.rules, call, now);
    var (decision, selected) := Resolved(engine, call, now);
    assert AreIndices(engine.rules, ks, decision.matchedRules);
    if matching != [] && !HasDeny(matching) {
      var best: nat :| IsFirstBest(matching, best)
        && decision.action == matching[best].action && selected == Some(matching[best].ruleIndex);
      FirstBestDecides(engine, call, now, ks, best);
    }
  }

  /** The stateless decision is the one that the rules prescribe. */
  lemma StatelessDecides(engine: Engine, call: PolicyCall, now: int)
    ensures Decides(engine, call, now, StatelessDecision(engine, call, now))
  {
    ResolvedExactly(engine, call, now);
  }

  // ----- the rules prescribe one decision -----

  lemma {:induction false} AscendingIsUnique(a: seq<nat>, b: seq<nat>)
    requires forall i, j :: 0 <= i < j < |a| ==> a[i] < a[j]
    requires forall i, j :: 0 <= i < j < |b| ==> b[i] < b[j]
    requires forall k: nat :: k in a <==> k in b
    ensures a == b
    decreases |a|
  {
    if a != [] && b != [] {
      assert a[|a| - 1] in b && b[|b| - 1] in a;
      var i :| 0 <= i < |b| && b[i] == a[|a| - 1];
      var j :| 0 <= j < |a| && a[j] == b[|b| - 1];
      var last := a[|a| - 1];
      assert last == b[|b| - 1];
      var a', b' := a[..|a| - 1], b[..|b| - 1];
      forall k: nat ensures k in a' <==> k in b' {
        assert k in a <==> k in a' || k == last;
        assert k in b <==> k in b' || k == last;
      }
      AscendingIsUnique(a', b');
    } else {
      EmptyTogether(a, b);
    }
  }

  lemma EmptyTogether(a: seq<nat>, b: seq<nat>)
    requires forall k: nat :: k in a <==> k in b
    ensures a == [] <==> b == []
  {
    if a != [] {
      assert a[0] in b;
    }
    if b != [] {
      assert b[0] in a;
    }
  }

  lemma MatchedIsUnique(engine: Engine, call: PolicyCall, now: int, a: seq<nat>, b: seq<nat>)
    requires MatchedAre(engine, call, now, a) && MatchedAre(engine, call, now, b)
    ensures a == b
  {
    var ks :| Covering(engine.rules, call, now, ks) && AreIndices(engine.rules, ks, a);
    var ks' :| Covering(engine.rules, call, now, ks') && AreIndices(engine.rules, ks', b);
    AscendingIsUnique(ks, ks');
  }

  /** A decision is the stateless one exactly if the rules prescribe it. */
  lemma StatelessExactly(engine: Engine, call: PolicyCall, now: int, d: Decision)
    ensures d == StatelessDecision(engine, call, now) <==> Decides(engine, call, now, d)
  {
    var computed := StatelessDecision(engine, call, now);
    StatelessDecides(engine, call, now);
    if Decides(engine, call, now, d) {
      ActionIsUnique(engine, call, now, d.action, computed.action);
      MatchedIsUnique(engine, call, now, d.matchedRules, computed.matchedRules);
    }
  }

  // ----- the single actions -----

  /** A call is denied exactly if a covering rule denies, or none covers it and the default denies. */
  lemma StatelessDenyExactly(engine: Engine, call: PolicyCall, now: int)
    ensures StatelessDecision(engine, call, now).action == Deny <==>
      SomeRuleDenies(engine, call, now) || (NoRuleCovers(engine, call, now) && engine.defaultAction == Deny)
  {
    StatelessDecides(engine, call, now);
  }

  /** It is throttled exactly if the deciding rule throttles or allows within a quota, or the default throttles. */
  lemma StatelessThrottleExactly(engine: Engine, call: PolicyCall, now: int)
    ensures StatelessDecision(engine, call, now).action == Throttle <==>
      && !SomeRuleDenies(engine, call, now)
      && (|| (NoRuleCovers(engine, call, now) && engine.defaultAction == Throttle)
          || exists k: nat :: IsDeciding(engine, call, now, k)
               && (engine.rules[k].action == Throttle || IsLimited(engine, engine.rules[k])))
  {
    StatelessDecides(engine, call, now);
    if k: nat :| IsDeciding(engine, call, now, k) && (engine.rules[k].action == Throttle || IsLimited(engine, engine.rules[k])) {
      if !SomeRuleDenies(engine, call, now) {
        assert ActionIs(engine, call, now, Throttle);
        ActionIsUnique(engine, call, now, Throttle, StatelessDecision(engine, call, now).action);
      }
    }
  }
}
