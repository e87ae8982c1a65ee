/** Which rule decides a call: the most specific one, then the strongest action, then the earliest; and deny first. */
module Resolution {
  import opened Common
  import opened Conditions
  import opened ConditionParsers
  import opened RateLimitSpec

  datatype Action = Allow | Deny | Throttle | Log | RequireApproval | Redirect

  datatype Rule = Rule(action: Action, target: map<string, string>, condition: Condition, ruleIndex: nat)

  datatype Decision = Decision(action: Action, matchedRules: seq<nat>)

  datatype Engine = Engine(rules: seq<Rule>, rateLimits: map<nat, RateLimit>, version: int, defaultAction: Action)

  function ActionPriority(action: Action): nat {
    match action
    case Deny => 6
    case RequireApproval => 5
    case Throttle => 4
    case Redirect => 3
    case Allow => 2
    case Log => 1
  }

  const CONTEXT_PREFIX := "context."

  /** One target field; an unknown key never matches. */
  predicate FieldMatches(key: string, value: string, call: PolicyCall) {
    if key == "agent" then call.agent == Some(value)
    else if key == "tool" then call.tool == Some(value)
    else if key == "user" then call.user == Some(value)
    else if CONTEXT_PREFIX <= key then
      var name := key[|CONTEXT_PREFIX|..];
      name in call.context && call.context[name] == value
    else false
  }

  predicate TargetMatches(target: map<string, string>, call: PolicyCall) {
    forall key :: key in target ==> FieldMatches(key, target[key], call)
  }

  ghost predicate Applies(rule: Rule, call: PolicyCall, now: int) {
    TargetMatches(rule.target, call) && Holds(rule.condition, call, now)
  }

  /** The rules that apply, in declaration order. */
  ghost function Matching(rules: seq<Rule>, call: PolicyCall, now: int): seq<Rule> {
    if rules == [] then []
    else
      var init, last := rules[..|rules| - 1], rules[|rules| - 1];
      Matching(init, call, now) + if Applies(last, call, now) then [last] else []
  }

  function Indices(rules: seq<Rule>): (indices: seq<nat>)
    ensures |indices| == |rules| && forall i :: 0 <= i < |rules| ==> indices[i] == rules[i].ruleIndex
  {
    seq(|rules|, i requires 0 <= i < |rules| => rules[i].ruleIndex)
  }

  /** `a` decides over `b`, whatever their order. */
  predicate Beats(a: Rule, b: Rule) {
    || |a.target| > |b.target|
    || (|a.target| == |b.target| && ActionPriority(a.action) > ActionPriority(b.action))
  }

  /** The first of the rules that no rule beats. */
  predicate IsFirstBest(rules: seq<Rule>, best: nat) {
    && best < |rules|
    && (forall i :: 0 <= i < |rules| ==> !Beats(rules[i], rules[best]))
    && (forall i :: 0 <= i < best ==> Beats(rules[best], rules[i]))
  }

  predicate HasDeny(rules: seq<Rule>) {
    exists i :: 0 <= i < |rules| && rules[i].action == Deny
  }

  /** The decision, and the rule that quota is charged to, before any quota is looked at. */
  ghost predicate Resolves(engine: Engine, call: PolicyCall, now: int, decision: Decision, selected: Option<nat>) {
    var matching := Matching(engine.rules, call, now);
    && decision.matchedRules == Indices(matching)
    && (if matching == [] then decision.action == engine.defaultAction && selected == None
        else if HasDeny(matching) then decision.action == Deny && selected == None
        else exists best: nat :: IsFirstBest(matching, best)
               && decision.action == matching[best].action && selected == Some(matching[best].ruleIndex))
  }

  lemma BeatsIsTransitive(a: Rule, b: Rule, c: Rule)
    requires Beats(a, b) && !Beats(c, b)
    ensures Beats(a, c)
  {
  }

  /** The first best of some rules, found from the front. */
  function FirstBest(rules: seq<Rule>): (best: nat)
    requires rules != []
    ensures IsFirstBest(rules, best)
    decreases |rules|
  {
    var last := |rules| - 1;
    if last == 0 then 0
    else
      var init := rules[..last];
      var best := FirstBest(init);
      assert forall k :: 0 <= k < last ==> rules[k] == init[k];
      if Beats(rules[last], rules[best]) then
        assert forall k :: 0 <= k < last ==> Beats(rules[last], rules[k]) by {
          forall k | 0 <= k < last ensures Beats(rules[last], rules[k]) {
            assert !Beats(init[k], init[best]);
            BeatsIsTransitive(rules[last], rules[best], rules[k]);
          }
        }
        last
      else best
  }

  /** The decision and the selected rule; there is exactly one of each. */
  ghost function Resolved(engine: Engine, call: PolicyCall, now: int): (r: (Decision, Option<nat>))
    ensures Resolves(engine, call, now, r.0, r.1)
  {
    var matching := Matching(engine.rules, call, now);
    if matching == [] then (Decision(engine.defaultAction, []), None)
    else if HasDeny(matching) then (Decision(Deny, Indices(matching)), None)
    else
      var best := FirstBest(matching);
      (Decision(matching[best].action, Indices(matching)), Some(matching[best].ruleIndex))
  }

  lemma ResolvesUniquely(engine: Engine, call: PolicyCall, now: int, decision: Decision, selected: Option<nat>)
    requires Resolves(engine, call, now, decision, selected)
    ensures (decision, selected) == Resolved(engine, call, now)
  {
    var matching := Matching(engine.rules, call, now);
    if matching != [] && !HasDeny(matching) {
      var best: nat :| IsFirstBest(matching, best)
        && decision.action == matching[best].action && selected == Some(matching[best].ruleIndex);
      var first := FirstBest(matching);
      assert !(best < first) && !(first < best);
    }
  }

  /** The stateless decision, which answers "throttle" where a quota would have to be charged. */
  ghost function StatelessDecision(engine: Engine, call: PolicyCall, now: int): Decision {
    var (decision, selected) := Resolved(engine, call, now);
    if selected.Some? && selected.value in engine.rateLimits && decision.action == Allow
    then Decision(Throttle, decision.matchedRules)
    else decision
  }

  method CollectMatching(rules: seq<Rule>, call: PolicyCall, now: int) returns (matching: seq<Rule>)
    ensures matching == Matching(rules, call, now)
  {
    matching := [];
    for i := 0 to |rules|
      invariant matching == Matching(rules[..i], call, now)
    {
      assert rules[..i + 1][..i] == rules[..i];
      if TargetMatches(rules[i].target, call) {
        var holds := Evaluate(rules[i].condition, call, now);
        if holds {
          matching := matching + [rules[i]];
        }
      }
    }
    assert rules[..|rules|] == rules;
  }

  /** The scan that keeps the best rule so far. */
  method SelectBest(matching: seq<Rule>) returns (best: nat)
    requires matching != []
    ensures IsFirstBest(matching, best)
  {
    best := 0;
    for i := 1 to |matching|
      invariant best < i
      invariant forall k :: 0 <= k < i ==> !Beats(matching[k], matching[best])
      invariant forall k :: 0 <= k < best ==> Beats(matching[best], matching[k])
    {
      var candidate, current := matching[i], matching[best];
      if |candidate.target| > |current.target|
         || (|candidate.target| == |current.target| && ActionPriority(candidate.action) > ActionPriority(current.action))
      {
        forall k | 0 <= k < i ensures Beats(candidate, matching[k]) {
          BeatsIsTransitive(candidate, current, matching[k]);
        }
        best := i;
      }
    }
  }

  method ResolveWithSelectedRule(engine: Engine, call: PolicyCall, now: int)
    returns (decision: Decision, selected: Option<nat>)
    ensures Resolves(engine, call, now, decision, selected)
  {
    var matching := CollectMatching(engine.rules, call, now);
    if matching == [] {
      return Decision(engine.defaultAction, []), None;
    }
    if HasDeny(matching) {
      return Decision(Deny, Indices(matching)), None;
    }
    var best := SelectBest(matching);
    decision := Decision(matching[best].action, Indices(matching));
    selected := Some(matching[best].ruleIndex);
  }

  method ResolveCall(engine: Engine, call: PolicyCall, now: int) returns (decision: Decision)
    ensures decision == StatelessDecision(engine, call, now)
  {
    var before, selected := ResolveWithSelectedRule(engine, call, now);
    ResolvesUniquely(engine, call, now, before, selected);
    decision := before;
    if selected.Some? && selected.value in engine.rateLimits && before.action == Allow {
      decision := Decision(Throttle, before.matchedRules);
    }
  }

  // ----- what does not depend on the order of the rules -----

  lemma {:induction false} MatchingCounts(rules: seq<Rule>, call: PolicyCall, now: int, rule: Rule)
    ensures multiset(Matching(rules, call, now))[rule] == if Applies(rule, call, now) then multiset(rules)[rule] else 0
    decreases |rules|
  {
    if rules != [] {
      var init, last := rules[..|rules| - 1], rules[|rules| - 1];
      assert rules == init + [last];
      MatchingCounts(init, call, now, rule);
    }
  }

  lemma MatchingOfPermutation(rules: seq<Rule>, rules': seq<Rule>, call: PolicyCall, now: int)
    requires multiset(rules) == multiset(rules')
    ensures multiset(Matching(rules, call, now)) == multiset(Matching(rules', call, now))
  {
    forall rule: Rule
      ensures multiset(Matching(rules, call, now))[rule] == multiset(Matching(rules', call, now))[rule]
    {
      MatchingCounts(rules, call, now, rule);
      MatchingCounts(rules', call, now, rule);
    }
  }

  lemma SameActionPriority(a: Action, b: Action)
    requires ActionPriority(a) == ActionPriority(b)
    ensures a == b
  {
  }

  /** The rules that nothing beats have one action, in whatever order they stand. */
  lemma SameBestAction(a: seq<Rule>, b: seq<Rule>, best: nat, best': nat)
    requires IsFirstBest(a, best) && IsFirstBest(b, best')
    requires forall rule: Rule :: rule in a <==> rule in b
    ensures a[best].action == b[best'].action
  {
    assert a[best] in b && b[best'] in a;
    var i :| 0 <= i < |b| && b[i] == a[best];
    var j :| 0 <= j < |a| && a[j] == b[best'];
    assert !Beats(b[i], b[best']) && !Beats(a[j], a[best]);
    SameActionPriority(a[best].action, b[best'].action);
  }

  /**
   The action before quotas is the same for every order of the rules. Only which
   of several equal rules is selected can depend on it.
   */
  lemma ActionIsOrderFree(engine: Engine, engine': Engine, call: PolicyCall, now: int,
                          decision: Decision, decision': Decision, selected: Option<nat>, selected': Option<nat>)
    requires multiset(engine.rules) == multiset(engine'.rules) && engine.defaultAction == engine'.defaultAction
    requires Resolves(engine, call, now, decision, selected) && Resolves(engine', call, now, decision', selected')
    ensures decision.action == decision'.action
    ensures selected.Some? <==> selected'.Some?
  {
    var a, b := Matching(engine.rules, call, now), Matching(engine'.rules, call, now);
    MatchingOfPermutation(engine.rules, engine'.rules, call, now);
    SameElements(a, b);
    if a != [] && !HasDeny(a) {
      var best: nat :| IsFirstBest(a, best) && decision.action == a[best].action;
      var best': nat :| IsFirstBest(b, best') && decision'.action == b[best'].action;
      SameBestAction(a, b, best, best');
    }
  }

  lemma SameElements(a: seq<Rule>, b: seq<Rule>)
    requires multiset(a) == multiset(b)
    ensures forall rule :: rule in a <==> rule in b
    ensures a == [] <==> b == []
    ensures HasDeny(a) <==> HasDeny(b)
  {
    assert forall rule :: rule in a <==> rule in multiset(a);
    assert forall rule :: rule in b <==> rule in multiset(b);
    if a != [] {
      assert a[0] in b;
    }
    if b != [] {
      assert b[0] in a;
    }
    if i :| 0 <= i < |a| && a[i].action == Deny {
      assert a[i] in b;
    }
    if i :| 0 <= i < |b| && b[i].action == Deny {
      assert b[i] in a;
    }
  }

  lemma InMatching(rules: seq<Rule>, call: PolicyCall, now: int, rule: Rule)
    ensures rule in Matching(rules, call, now) <==> rule in rules && Applies(rule, call, now)
  {
    MatchingCounts(rules, call, now, rule);
    assert rule in Matching(rules, call, now) <==> rule in multiset(Matching(rules, call, now));
    assert rule in rules <==> rule in multiset(rules);
  }

  /**
   Deny is final: a call is denied exactly if some deny rule applies, wherever
   it stands among the rules, or no rule applies and the default is deny.
   */
  lemma DeniedExactly(engine: Engine, call: PolicyCall, now: int, decision: Decision, selected: Option<nat>)
    requires Resolves(engine, call, now, decision, selected)
    ensures decision.action == Deny <==>
      || (exists rule :: rule in engine.rules && Applies(rule, call, now) && rule.action == Deny)
      || ((forall rule :: rule in engine.rules ==> !Applies(rule, call, now)) && engine.defaultAction == Deny)
  {
    var matching := Matching(engine.rules, call, now);
    forall rule: Rule ensures rule in matching <==> rule in engine.rules && Applies(rule, call, now) {
      InMatching(engine.rules, call, now, rule);
    }
    assert HasDeny(matching) <==> exists rule :: rule in engine.rules && Applies(rule, call, now) && rule.action == Deny by {
      if HasDeny(matching) {
        var i :| 0 <= i < |matching| && matching[i].action == Deny;
        assert matching[i] in matching;
      }
      if rule :| rule in engine.rules && Applies(rule, call, now) && rule.action == Deny {
        assert rule in matching;
      }
    }
    if matching != [] {
      assert matching[0] in matching;
    }
  }
}
