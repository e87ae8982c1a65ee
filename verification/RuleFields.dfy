/** Which rule a raw rule stands for, read off its fields. */
module RuleFields {
  import opened Common
  import opened Conditions
  import opened ConditionSpec
  import opened Resolution
  import opened RateLimitSpec
  import opened PolicySpec
  import opened TargetFields

  /** How a policy spells an action. */
  function NameOf(action: Action): string {
    match action
    case Allow => "allow"
    case Deny => "deny"
    case Throttle => "throttle"
    case Log => "log"
    case RequireApproval => "require_approval"
    case Redirect => "redirect"
  }

  lemma ActionReadExactly(text: string, action: Action)
    ensures ParseAction(text) == Some(action) <==> text == NameOf(action)
  {
  }

  /** The value of the first field with this key. */
  function FieldValue(fields: seq<(Yaml, Yaml)>, name: string): Option<Yaml> {
    if fields == [] then None
    else if IsKey(fields[0].0, name) then Some(fields[0].1)
    else FieldValue(fields[1..], name)
  }

  lemma {:induction false} FieldIsThere(fields: seq<(Yaml, Yaml)>, name: string)
    ensures FieldValue(fields, name).Some? <==> exists i :: 0 <= i < |fields| && IsKey(fields[i].0, name)
    ensures FieldValue(fields, name).Some? ==>
      exists i :: 0 <= i < |fields| && IsKey(fields[i].0, name) && FieldValue(fields, name).value == fields[i].1
    decreases |fields|
  {
    if fields != [] {
      var rest := fields[1..];
      assert forall i :: 0 <= i < |rest| ==> rest[i] == fields[i + 1];
      FieldIsThere(rest, name);
      if i :| 0 <= i < |fields| && IsKey(fields[i].0, name) {
        assert i > 0 ==> IsKey(rest[i - 1].0, name);
      }
    }
  }

  predicate RuleFieldOk(field: (Yaml, Yaml), allowRateLimit: bool) {
    || (IsKey(field.0, "action") && field.1.Text?)
    || IsKey(field.0, "target")
    || IsKey(field.0, "condition")
    || (IsKey(field.0, "id") && IsPlainText(field.1))
    || (IsKey(field.0, "rate_limit") && allowRateLimit && ParseRateLimit(field.1).Some?)
  }

  function TextOf(y: Option<Yaml>): Option<string> {
    if y.Some? && y.value.Text? then Some(y.value.text) else None
  }

  function LimitOfField(y: Option<Yaml>): Option<RateLimit> {
    if y.Some? then ParseRateLimit(y.value) else None
  }

  function Or<T>(a: Option<T>, b: Option<T>): Option<T> {
    if a.Some? then a else b
  }

  lemma OneField(field: (Yaml, Yaml), draft: Draft, allowRateLimit: bool)
    ensures ReadRuleField(field, draft, allowRateLimit).Some? <==> RuleFieldOk(field, allowRateLimit)
    ensures ReadRuleField(field, draft, allowRateLimit).Some? ==>
      var r := ReadRuleField(field, draft, allowRateLimit).value;
      && r.action == (if IsKey(field.0, "action") then Some(field.1.text) else draft.action)
      && r.target == (if IsKey(field.0, "target") then Some(field.1) else draft.target)
      && r.condition == (if IsKey(field.0, "condition") then Some(field.1) else draft.condition)
      && r.id == (if IsKey(field.0, "id") then Some(field.1.text) else draft.id)
      && r.rateLimit == (if IsKey(field.0, "rate_limit") then ParseRateLimit(field.1) else draft.rateLimit)
  {
    assert |"action"| == 6 && |"target"| == 6 && "action"[0] != "target"[0];
    assert |"condition"| == 9 && |"id"| == 2 && |"rate_limit"| == 10;
  }

  /** Every field is read into its slot of the draft. */
  ghost predicate ReadInto(fields: seq<(Yaml, Yaml)>, draft: Draft, r: Draft) {
    && r.action == Or(TextOf(FieldValue(fields, "action")), draft.action)
    && r.target == Or(FieldValue(fields, "target"), draft.target)
    && r.condition == Or(FieldValue(fields, "condition"), draft.condition)
    && r.id == Or(TextOf(FieldValue(fields, "id")), draft.id)
    && r.rateLimit == Or(LimitOfField(FieldValue(fields, "rate_limit")), draft.rateLimit)
  }

  lemma NoSecond(fields: seq<(Yaml, Yaml)>, name: string)
    requires fields != [] && DistinctFields(fields) && IsKey(fields[0].0, name)
    ensures FieldValue(fields[1..], name).None?
  {
    FieldIsThere(fields[1..], name);
  }

  lemma {:induction false} RuleReads(fields: seq<(Yaml, Yaml)>, draft: Draft, allowRateLimit: bool)
    requires DistinctFields(fields)
    ensures ReadRule(fields, draft, allowRateLimit).Some? <==>
      forall i :: 0 <= i < |fields| ==> RuleFieldOk(fields[i], allowRateLimit)
    ensures ReadRule(fields, draft, allowRateLimit).Some? ==>
      ReadInto(fields, draft, ReadRule(fields, draft, allowRateLimit).value)
    decreases |fields|
  {
    if fields != [] {
      var rest := fields[1..];
      assert forall i :: 0 <= i < |rest| ==> rest[i] == fields[i + 1];
      OneField(fields[0], draft, allowRateLimit);
      var next := ReadRuleField(fields[0], draft, allowRateLimit);
      if next.Some? {
        RuleReads(rest, next.value, allowRateLimit);
        if ReadRule(fields, draft, allowRateLimit).Some? {
          OneMoreRead(fields, draft, next.value, ReadRule(rest, next.value, allowRateLimit).value, allowRateLimit);
        }
      }
    }
  }

  lemma OneMoreRead(fields: seq<(Yaml, Yaml)>, draft: Draft, next: Draft, r: Draft, allowRateLimit: bool)
    requires fields != [] && DistinctFields(fields) && ReadRuleField(fields[0], draft, allowRateLimit) == Some(next)
    requires ReadInto(fields[1..], next, r)
    ensures ReadInto(fields, draft, r)
  {
    OneField(fields[0], draft, allowRateLimit);
    if IsKey(fields[0].0, "action") {
      NoSecond(fields, "action");
    } else if IsKey(fields[0].0, "target") {
      NoSecond(fields, "target");
    } else if IsKey(fields[0].0, "condition") {
      NoSecond(fields, "condition");
    } else if IsKey(fields[0].0, "id") {
      NoSecond(fields, "id");
    } else {
      NoSecond(fields, "rate_limit");
    }
  }

  // ----- the rule that a raw rule stands for -----

  /** The raw rule's own target asks for `key` with this value. */
  predicate OwnTargetAsks(fields: seq<(Yaml, Yaml)>, key: string, value: string) {
    var target := FieldValue(fields, "target");
    target.Some? && target.value.Mapping? && Asks(target.value.fields, key, value)
  }

  predicate OwnTargetOk(fields: seq<(Yaml, Yaml)>) {
    var target := FieldValue(fields, "target");
    target.Some? ==>
      target.value.Mapping? && forall i :: 0 <= i < |target.value.fields| ==> TargetFieldOk(target.value.fields[i])
  }

  /** No mapping of the raw rule has a key twice. */
  predicate DistinctRule(item: Yaml) {
    item.Mapping? ==>
      && DistinctFields(item.fields)
      && var target := FieldValue(item.fields, "target");
         target.Some? && target.value.Mapping? ==>
           DistinctFields(target.value.fields) && DistinctContext(target.value.fields)
  }

  /** The target is what the raw rule asks for itself, and the agent and tool that enclose it. */
  ghost predicate TargetOf(fields: seq<(Yaml, Yaml)>, enclosing: map<string, string>, target: map<string, string>) {
    && OwnTargetOk(fields)
    && (forall key: string, value: string ::
          Has(target, key, value) <==> OwnTargetAsks(fields, key, value) || Has(enclosing, key, value))
    && (forall key: string, value: string :: OwnTargetAsks(fields, key, value) && key in enclosing ==> value == enclosing[key])
  }

  predicate ConditionOf(fields: seq<(Yaml, Yaml)>, condition: Condition) {
    match FieldValue(fields, "condition")
    case None => condition == NO_CONDITION
    case Some(y) => ParseCondition(y, 1, 0).condition == Some(condition)
  }

  /** The raw rule `item` in the scope `enclosing` stands for this rule, with this limit. */
  ghost predicate StandsFor(item: Yaml, enclosing: map<string, string>, allowRateLimit: bool,
                            rule: Rule, limit: Option<RateLimit>) {
    && item.Mapping?
    && (forall i :: 0 <= i < |item.fields| ==> RuleFieldOk(item.fields[i], allowRateLimit))
    && TextOf(FieldValue(item.fields, "action")) == Some(NameOf(rule.action))
    && TargetOf(item.fields, enclosing, rule.target)
    && ConditionOf(item.fields, rule.condition)
    && limit == LimitOfField(FieldValue(item.fields, "rate_limit"))
    && (limit.Some? ==> rule.action == Allow)
  }

  lemma TargetReads(fields: seq<(Yaml, Yaml)>, key: string, value: string)
    requires DistinctRule(Mapping(fields))
    ensures var own := ParseTarget(FieldValue(fields, "target"));
      && (own.Some? <==> OwnTargetOk(fields))
      && (own.Some? ==> (Has(own.value, key, value) <==> OwnTargetAsks(fields, key, value)))
  {
    var target := FieldValue(fields, "target");
    if target.Some? {
      TargetReadExactly(target.value, key, value);
    }
  }

  /** Adding the scope to the own target succeeds exactly if they do not conflict, and gives the union of both. */
  lemma ScopeAdded(own: map<string, string>, enclosing: map<string, string>)
    ensures AddEnclosing(own, enclosing).Some? <==>
      forall key: string, value: string :: Has(own, key, value) && key in enclosing ==> value == enclosing[key]
    ensures AddEnclosing(own, enclosing).Some? ==>
      forall key: string, value: string ::
        Has(AddEnclosing(own, enclosing).value, key, value) <==> Has(own, key, value) || Has(enclosing, key, value)
  {
    forall key | key in own ensures Has(own, key, own[key]) {
    }
  }

  lemma TargetAddedExactly(fields: seq<(Yaml, Yaml)>, enclosing: map<string, string>)
    requires DistinctRule(Mapping(fields))
    ensures var own := ParseTarget(FieldValue(fields, "target"));
      var scoped := if own.Some? then AddEnclosing(own.value, enclosing) else None;
      && (scoped.Some? ==> TargetOf(fields, enclosing, scoped.value))
      && ((exists target :: TargetOf(fields, enclosing, target)) ==> scoped.Some?)
  {
    var own := ParseTarget(FieldValue(fields, "target"));
    TargetReads(fields, "", "");
    if own.Some? {
      forall key: string, value: string ensures Has(own.value, key, value) <==> OwnTargetAsks(fields, key, value) {
        TargetReads(fields, key, value);
      }
      ScopeAdded(own.value, enclosing);
    }
  }

  /** The limits after the rule at `index` was added with this limit, or without one. */
  function WithLimit(limits: map<nat, RateLimit>, index: nat, limit: Option<RateLimit>): map<nat, RateLimit> {
    if limit.Some? then limits[index := limit.value] else limits
  }

  lemma DraftAdded(c: Collected, item: Yaml, enclosing: map<string, string>, allowRateLimit: bool, draft: Draft)
    requires item.Mapping? && DistinctRule(item)
    requires ReadRule(item.fields, EMPTY_DRAFT, allowRateLimit) == Some(draft)
    requires ReadInto(item.fields, EMPTY_DRAFT, draft)
    requires forall i :: 0 <= i < |item.fields| ==> RuleFieldOk(item.fields[i], allowRateLimit)
    ensures var r := AddDraft(c, draft, enclosing);
      r.Some? ==>
        && |r.value.rules| == |c.rules| + 1 && r.value.rules[..|c.rules|] == c.rules
        && r.value.rules[|c.rules|].ruleIndex == |c.rules|
        && r.value.rateLimits == WithLimit(c.rateLimits, |c.rules|, draft.rateLimit)
        && StandsFor(item, enclosing, allowRateLimit, r.value.rules[|c.rules|], draft.rateLimit)
  {
    if AddDraft(c, draft, enclosing).Some? {
      TargetAddedExactly(item.fields, enclosing);
      ActionReadExactly(draft.action.value, ParseAction(draft.action.value).value);
    }
  }

  lemma DraftAccepted(c: Collected, item: Yaml, enclosing: map<string, string>, allowRateLimit: bool, draft: Draft,
                      rule: Rule, limit: Option<RateLimit>)
    requires StandsFor(item, enclosing, allowRateLimit, rule, limit) && DistinctRule(item)
    requires ReadInto(item.fields, EMPTY_DRAFT, draft)
    requires draft.id.Some? ==> draft.id.value !in c.ids
    ensures AddDraft(c, draft, enclosing).Some?
  {
    ActionReadExactly(draft.action.value, rule.action);
    TargetAddedExactly(item.fields, enclosing);
    assert TargetOf(item.fields, enclosing, rule.target);
  }

  /** The id that a raw rule gives. */
  function IdOf(item: Yaml): Option<string> {
    if item.Mapping? then TextOf(FieldValue(item.fields, "id")) else None
  }

  /**
   A raw rule is accepted exactly if it stands for some rule and its id is not
   taken, and then that rule is the one that is added, at the next index.
   */
  lemma RuleReadExactly(c: Collected, e: Entry, allowRateLimit: bool)
    requires DistinctRule(e.raw)
    ensures AddEntry(c, e, allowRateLimit).Some? <==>
      && (exists rule, limit :: StandsFor(e.raw, e.enclosing, allowRateLimit, rule, limit))
      && (IdOf(e.raw).Some? ==> IdOf(e.raw).value !in c.ids)
    ensures AddEntry(c, e, allowRateLimit).Some? ==>
      var r := AddEntry(c, e, allowRateLimit).value;
      && |r.rules| == |c.rules| + 1 && r.rules[..|c.rules|] == c.rules
      && r.rules[|c.rules|].ruleIndex == |c.rules|
      && exists limit ::
           && StandsFor(e.raw, e.enclosing, allowRateLimit, r.rules[|c.rules|], limit)
           && r.rateLimits == WithLimit(c.rateLimits, |c.rules|, limit)
  {
    if e.raw.Mapping? {
      RuleReads(e.raw.fields, EMPTY_DRAFT, allowRateLimit);
      var read := ReadRule(e.raw.fields, EMPTY_DRAFT, allowRateLimit);
      if read.Some? {
        DraftAdded(c, e.raw, e.enclosing, allowRateLimit, read.value);
      }
      if rule, limit :| StandsFor(e.raw, e.enclosing, allowRateLimit, rule, limit) {
        if read.Some? && (IdOf(e.raw).Some? ==> IdOf(e.raw).value !in c.ids) {
          DraftAccepted(c, e.raw, e.enclosing, allowRateLimit, read.value, rule, limit);
        }
      }
    }
  }
}
