/** A parsed policy, read off its document: which rules it has, in which order, with which targets, quotas and default. */
module DocumentRules {
  import opened Common
  import opened Conditions
  import opened Resolution
  import opened RateLimitSpec
  import opened PolicySpec
  import opened TargetFields
  import opened RuleFields
  import opened DocumentPlaces
  import ConditionMeaning

  /** Rule `r` and its limit are what the raw rule of the entry stands for. */
  ghost predicate RuleStands(e: Entry, allowRateLimit: bool, rules: seq<Rule>, rateLimits: map<nat, RateLimit>, r: nat) {
    && r < |rules| && rules[r].ruleIndex == r
    && StandsFor(e.raw, e.enclosing, allowRateLimit, rules[r], if r in rateLimits then Some(rateLimits[r]) else None)
  }

  ghost predicate AllStand(entries: seq<Entry>, allowRateLimit: bool, rules: seq<Rule>, rateLimits: map<nat, RateLimit>) {
    && |rules| == |entries|
    && (forall r: nat :: r < |entries| ==> RuleStands(entries[r], allowRateLimit, rules, rateLimits, r))
    && (forall r :: r in rateLimits ==> r < |rules|)
  }

  /** What one more rule adds is what its raw rule stands for. */
  lemma OneMoreStands(c: Collected, c': Collected, init: seq<Entry>, e: Entry, allowRateLimit: bool)
    requires AllStand(init, allowRateLimit, c.rules, c.rateLimits) && DistinctRule(e.raw)
    requires AddEntry(c, e, allowRateLimit) == Some(c')
    ensures AllStand(init + [e], allowRateLimit, c'.rules, c'.rateLimits)
  {
    var entries := init + [e];
    RuleReadExactly(c, e, allowRateLimit);
    forall r: nat | r < |entries| ensures RuleStands(entries[r], allowRateLimit, c'.rules, c'.rateLimits, r) {
      if r < |init| {
        assert RuleStands(init[r], allowRateLimit, c.rules, c.rateLimits, r);
        assert c'.rules[r] == c'.rules[..|c.rules|][r];
      }
    }
  }

  ghost predicate DistinctRules(entries: seq<Entry>) {
    forall r :: 0 <= r < |entries| ==> DistinctRule(entries[r].raw)
  }

  lemma EntriesAtATime(init: seq<Entry>, e: Entry, allowRateLimit: bool)
    ensures AddEntries(NOTHING, init + [e], allowRateLimit) ==
      var before := AddEntries(NOTHING, init, allowRateLimit);
      if before.None? then None else AddEntry(before.value, e, allowRateLimit)
  {
    assert (init + [e])[..|init|] == init;
  }

  lemma {:induction false} EntriesStand(entries: seq<Entry>, allowRateLimit: bool)
    requires AddEntries(NOTHING, entries, allowRateLimit).Some? && DistinctRules(entries)
    ensures var c := AddEntries(NOTHING, entries, allowRateLimit).value;
      AllStand(entries, allowRateLimit, c.rules, c.rateLimits)
    decreases |entries|
  {
    if entries != [] {
      var init, e := entries[..|entries| - 1], entries[|entries| - 1];
      assert init + [e] == entries;
      EntriesAtATime(init, e, allowRateLimit);
      assert DistinctRule(e.raw);
      EntriesStand(init, allowRateLimit);
      var before := AddEntries(NOTHING, init, allowRateLimit).value;
      OneMoreStands(before, AddEntry(before, e, allowRateLimit).value, init, e, allowRateLimit);
    }
  }

  predicate DistinctGlobals(fields: seq<(Yaml, Yaml)>) {
    && DistinctFields(fields)
    && forall i :: 0 <= i < |fields| && IsKey(fields[i].0, "global") && fields[i].1.Mapping? ==> DistinctFields(fields[i].1.fields)
  }

  /** No mapping that the parser looks at has a key twice. */
  ghost predicate WellKeyed(fields: seq<(Yaml, Yaml)>) {
    && DistinctGlobals(fields)
    && DistinctSections(fields)
    && forall p: Place :: InDocument(fields, p) ==> DistinctRule(ItemAt(fields, p))
  }

  lemma WellKeyedField(y: Yaml, i: nat)
    requires ConditionMeaning.DistinctKeys(y) && y.Mapping? && i < |y.fields|
    ensures DistinctFields(y.fields) && ConditionMeaning.DistinctKeys(y.fields[i].1)
  {
  }

  lemma WellKeyedMapping(y: Yaml)
    requires ConditionMeaning.DistinctKeys(y) && y.Mapping?
    ensures DistinctFields(y.fields) && DistinctConfigs(y.fields) && DistinctContext(y.fields)
  {
    forall i | 0 <= i < |y.fields| && y.fields[i].1.Mapping? ensures DistinctFields(y.fields[i].1.fields) {
      WellKeyedField(y, i);
    }
  }

  lemma WellKeyedRule(item: Yaml)
    requires ConditionMeaning.DistinctKeys(item)
    ensures DistinctRule(item)
  {
    if item.Mapping? {
      var target := FieldValue(item.fields, "target");
      if target.Some? {
        FieldIsThere(item.fields, "target");
        if target.value.Mapping? {
          WellKeyedMapping(target.value);
        }
      }
    }
  }

  lemma WellKeyedAgents(agents: Yaml)
    requires ConditionMeaning.DistinctKeys(agents) && agents.Mapping?
    ensures DistinctAgents(agents.fields)
  {
    WellKeyedMapping(agents);
    forall a | 0 <= a < |agents.fields| && IsSole(agents.fields[a].1, "tools") && Sole(agents.fields[a].1).Mapping?
      ensures DistinctConfigs(Sole(agents.fields[a].1).fields)
    {
      WellKeyedField(agents.fields[a].1, 0);
      WellKeyedMapping(Sole(agents.fields[a].1));
    }
  }

  lemma WellKeyedItem(document: Yaml, p: Place)
    requires ConditionMeaning.DistinctKeys(document) && document.Mapping? && InDocument(document.fields, p)
    ensures DistinctRule(ItemAt(document.fields, p))
  {
    var section := document.fields[p.section].1;
    WellKeyedField(document, p.section);
    match p
    case TopLevel(_, item) =>
      WellKeyedRule(section.items[item]);
    case Nested(_, a, t, item) =>
      WellKeyedField(section, a);
      WellKeyedField(section.fields[a].1, 0);
      var tools := Sole(section.fields[a].1);
      WellKeyedField(tools, t);
      WellKeyedField(tools.fields[t].1, 0);
      WellKeyedRule(Sole(tools.fields[t].1).items[item]);
  }

  /** Every document that the YAML library accepts is well keyed. */
  lemma DistinctKeysMakeWellKeyed(document: Yaml)
    requires ConditionMeaning.DistinctKeys(document) && document.Mapping?
    ensures WellKeyed(document.fields)
  {
    var fields := document.fields;
    WellKeyedMapping(document);
    forall i | 0 <= i < |fields| && IsKey(fields[i].0, "agents") && fields[i].1.Mapping?
      ensures DistinctAgents(fields[i].1.fields)
    {
      WellKeyedField(document, i);
      WellKeyedAgents(fields[i].1);
    }
    forall p: Place | InDocument(fields, p) ensures DistinctRule(ItemAt(fields, p)) {
      WellKeyedItem(document, p);
    }
  }

  /** Rule `r` and its quota are what the raw rule at place `p` stands for, in the scope that encloses it. */
  ghost predicate RuleAt(fields: seq<(Yaml, Yaml)>, p: Place, version: int, engine: Engine, r: nat) {
    && InDocument(fields, p) && r < |engine.rules| && engine.rules[r].ruleIndex == r
    && StandsFor(ItemAt(fields, p), ScopeAt(fields, p), version == 2,
                 engine.rules[r], if r in engine.rateLimits then Some(engine.rateLimits[r]) else None)
  }

  /**
   The rules of an accepted document are those that stand in it, all of them, in
   its order: rule r is what the raw rule at the r-th place stands for, in the
   scope that encloses that place, with the quota that it asks for.
   */
  lemma ParsedExactly(document: Yaml, version: int) returns (places: seq<Place>)
    requires Parse(document, version).Some? && WellKeyed(document.fields)
    ensures var engine := Parse(document, version).value;
      && |places| == |engine.rules|
      && (forall p: Place :: p in places <==> InDocument(document.fields, p))
      && (forall r, s :: 0 <= r < s < |places| ==> Before(places[r], places[s]))
      && (forall r: nat :: r < |places| ==> RuleAt(document.fields, places[r], version, engine, r))
      && (forall r :: r in engine.rateLimits ==> r < |engine.rules|)
      && engine.version == version
  {
    var fields, engine := document.fields, Parse(document, version).value;
    var entries := OutlineOf(fields).value.entries;
    places := OutlinePlaces(fields);
    forall r | 0 <= r < |entries| ensures DistinctRule(entries[r].raw) {
      assert PlaceHolds(fields, entries[r], places[r]);
    }
    EntriesStand(entries, version == 2);
    forall r: nat | r < |places| ensures RuleAt(fields, places[r], version, engine, r) {
      StandsAtPlace(fields, entries, places, version, engine, r);
    }
  }

  lemma StandsAtPlace(fields: seq<(Yaml, Yaml)>, entries: seq<Entry>, places: seq<Place>, version: int, engine: Engine, r: nat)
    requires r < |places| && ListsDocument(fields, entries, places)
    requires AllStand(entries, version == 2, engine.rules, engine.rateLimits)
    ensures RuleAt(fields, places[r], version, engine, r)
  {
    assert PlaceHolds(fields, entries[r], places[r]);
    assert RuleStands(entries[r], version == 2, engine.rules, engine.rateLimits, r);
  }

  lemma ScopeNames(fields: seq<(Yaml, Yaml)>, p: Place)
    requires InDocument(fields, p) && p.Nested?
    ensures var (agentName, agentConfig) := fields[p.section].1.fields[p.agent];
      && Has(ScopeAt(fields, p), "agent", agentName.text)
      && Has(ScopeAt(fields, p), "tool", Sole(agentConfig).fields[p.tool].0.text)
  {
    assert |"agent"| == 5 && |"tool"| == 4;
  }

  /** The rule parsed from under an agent and a tool asks for that agent and that tool. */
  lemma NestedRuleIsScoped(document: Yaml, version: int, p: Place) returns (r: nat)
    requires Parse(document, version).Some? && WellKeyed(document.fields)
    requires InDocument(document.fields, p) && p.Nested?
    ensures var engine := Parse(document, version).value;
      var (agentName, agentConfig) := document.fields[p.section].1.fields[p.agent];
      var toolName := Sole(agentConfig).fields[p.tool].0;
      && RuleAt(document.fields, p, version, engine, r)
      && Has(engine.rules[r].target, "agent", agentName.text)
      && Has(engine.rules[r].target, "tool", toolName.text)
  {
    var places := ParsedExactly(document, version);
    assert p in places;
    r :| r < |places| && places[r] == p;
    ScopeNames(document.fields, p);
  }

  /** The rule parsed from a top-level list asks only for what its own target asks for. */
  lemma TopLevelRuleIsUnscoped(document: Yaml, version: int, p: Place) returns (r: nat)
    requires Parse(document, version).Some? && WellKeyed(document.fields)
    requires InDocument(document.fields, p) && p.TopLevel?
    ensures var engine := Parse(document, version).value;
      && RuleAt(document.fields, p, version, engine, r)
      && forall key: string, value: string ::
           Has(engine.rules[r].target, key, value) <==> OwnTargetAsks(ItemAt(document.fields, p).fields, key, value)
  {
    var places := ParsedExactly(document, version);
    assert p in places;
    r :| r < |places| && places[r] == p;
  }

  // ----- the default action -----

  /** The only key that an accepted "global" section has. */
  lemma {:induction false} GlobalKeys(fields: seq<(Yaml, Yaml)>)
    ensures GlobalAction(fields).Some? <==>
      forall i :: 0 <= i < |fields| ==> GlobalFieldOk(fields[i])
    ensures GlobalAction(fields).Some? && fields != [] ==>
      fields[|fields| - 1].1.text == NameOf(GlobalAction(fields).value)
    decreases |fields|
  {
    if fields != [] {
      var init, last := fields[..|fields| - 1], fields[|fields| - 1];
      GlobalKeys(init);
      assert forall i :: 0 <= i < |init| ==> init[i] == fields[i];
      if last.1.Text? {
        var action := ParseAction(last.1.text);
        if action.Some? {
          ActionReadExactly(last.1.text, action.value);
        } else if named :| last.1.text == NameOf(named) {
          ActionReadExactly(last.1.text, named);
        }
      }
    }
  }

  predicate GlobalFieldOk(field: (Yaml, Yaml)) {
    IsKey(field.0, "default_action") && field.1.Text? && exists action: Action :: field.1.text == NameOf(action)
  }

  /** The action that a "global" section asks for. */
  ghost predicate Defaults(section: Yaml, action: Action) {
    && section.Mapping?
    && match FieldValue(section.fields, "default_action")
       case None => action == Allow
       case Some(named) => named.Text? && named.text == NameOf(action)
  }

  lemma KeyOnce(fields: seq<(Yaml, Yaml)>, name: string)
    requires DistinctFields(fields)
    ensures |fields| > 1 && IsKey(fields[0].0, name) ==> !IsKey(fields[1].0, name)
  {
  }

  lemma GlobalReads(section: Yaml)
    requires section.Mapping? && DistinctFields(section.fields) && GlobalAction(section.fields).Some?
    ensures Defaults(section, GlobalAction(section.fields).value)
  {
    var fields := section.fields;
    GlobalKeys(fields);
    KeyOnce(fields, "default_action");
  }

  lemma {:induction false} LastFieldValue(fields: seq<(Yaml, Yaml)>, name: string)
    requires fields != []
    ensures FieldValue(fields, name) ==
      Or(FieldValue(fields[..|fields| - 1], name),
         if IsKey(fields[|fields| - 1].0, name) then Some(fields[|fields| - 1].1) else None)
    decreases |fields|
  {
    if |fields| == 1 {
      assert fields[..0] == [] && fields[1..] == [];
    } else {
      var rest := fields[1..];
      LastFieldValue(rest, name);
      assert rest[..|rest| - 1] == fields[..|fields| - 1][1..];
    }
  }

  /** The default is what the "global" section asks for, and without one it is allow. */
  ghost predicate DefaultOf(fields: seq<(Yaml, Yaml)>, action: Action) {
    match FieldValue(fields, "global")
    case None => action == Allow
    case Some(section) => Defaults(section, action)
  }

  lemma {:induction false} OutlineDefaults(fields: seq<(Yaml, Yaml)>)
    requires OutlineOf(fields).Some? && DistinctGlobals(fields)
    ensures DefaultOf(fields, OutlineOf(fields).value.defaultAction)
    decreases |fields|
  {
    if fields != [] {
      var init := fields[..|fields| - 1];
      var (key, value) := fields[|fields| - 1];
      assert forall i :: 0 <= i < |init| ==> init[i] == fields[i];
      OutlineDefaults(init);
      LastFieldValue(fields, "global");
      assert |"version"| == 7 && |"rules"| == 5 && |"agents"| == 6 && |"global"| == 6 && "agents"[0] != "global"[0];
      if IsKey(key, "global") {
        FieldIsThere(init, "global");
        GlobalReads(value);
      }
    }
  }

  /** The default action of a parsed policy. */
  lemma DefaultExactly(document: Yaml, version: int)
    requires Parse(document, version).Some? && WellKeyed(document.fields)
    ensures DefaultOf(document.fields, Parse(document, version).value.defaultAction)
  {
    OutlineDefaults(document.fields);
  }
}
