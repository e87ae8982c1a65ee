/** The policy parser as the runtimes execute it: nested loops over the document that add to one collection. */
module PolicyParsers {
  import opened Common
  import opened Conditions
  import opened ConditionParsers
  import opened Resolution
  import opened RateLimitSpec
  import opened PolicySpec

  class PolicyBuilder {
    const allowRateLimit: bool
    var rules: seq<Rule>
    var ruleIds: set<string>
    var index: nat
    var rateLimits: map<nat, RateLimit>

    constructor (allowRateLimit: bool)
      ensures this.allowRateLimit == allowRateLimit && Valid() && View() == NOTHING
    {
      this.allowRateLimit := allowRateLimit;
      rules, ruleIds, index, rateLimits := [], {}, 0, map[];
    }

    /** The running index is the number of rules so far. */
    predicate Valid()
      reads this
    {
      index == |rules|
    }

    function View(): Collected
      reads this
    {
      Collected(rules, ruleIds, rateLimits)
    }

    method ReadDraft(fields: seq<(Yaml, Yaml)>) returns (r: Option<Draft>)
      ensures r == ReadRule(fields, EMPTY_DRAFT, allowRateLimit)
    {
      var draft := EMPTY_DRAFT;
      assert fields[0..] == fields;
      for i := 0 to |fields|
        invariant ReadRule(fields, EMPTY_DRAFT, allowRateLimit) == ReadRule(fields[i..], draft, allowRateLimit)
      {
        assert fields[i..][1..] == fields[i + 1..];
        var next := ReadRuleField(fields[i], draft, allowRateLimit);
        if next.None? {
          return None;
        }
        draft := next.value;
      }
      r := Some(draft);
    }

    /** Adds one rule, or refuses the whole document. */
    method AddRule(value: Yaml, enclosing: map<string, string>) returns (ok: bool)
      requires Valid()
      modifies this
      ensures ok <==> AddEntry(old(View()), Entry(enclosing, value), allowRateLimit).Some?
      ensures ok ==> Valid() && View() == AddEntry(old(View()), Entry(enclosing, value), allowRateLimit).value
    {
      if !value.Mapping? {
        return false;
      }
      var draft := ReadDraft(value.fields);
      if draft.None? || draft.value.action.None? {
        return false;
      }
      if draft.value.id.Some? {
        if draft.value.id.value in ruleIds {
          return false;
        }
        ruleIds := ruleIds + {draft.value.id.value};
      }
      var action := ParseAction(draft.value.action.value);
      if action.None? || (draft.value.rateLimit.Some? && action.value != Allow) {
        return false;
      }
      var target := ParseTarget(draft.value.target);
      if target.None? {
        return false;
      }
      var scoped := AddEnclosing(target.value, enclosing);
      var condition := ParseConditions(draft.value.condition);
      if scoped.None? || condition.None? {
        return false;
      }
      rules := rules + [Rule(action.value, scoped.value, condition.value, index)];
      if draft.value.rateLimit.Some? {
        rateLimits := rateLimits[index := draft.value.rateLimit.value];
      }
      index := index + 1;
      return true;
    }

    method AddRules(value: Yaml, enclosing: map<string, string>) returns (ok: bool)
      requires Valid()
      modifies this
      ensures ok <==> AddAll(old(View()), RuleEntries(value, enclosing), allowRateLimit).Some?
      ensures ok ==> Valid() && View() == AddAll(old(View()), RuleEntries(value, enclosing), allowRateLimit).value
    {
      if !value.Sequence? {
        return false;
      }
      ghost var entries := RuleEntries(value, enclosing).value;
      for i := 0 to |value.items|
        invariant Valid()
        invariant AddEntries(old(View()), entries[..i], allowRateLimit) == Some(View())
      {
        NextEntry(old(View()), entries, i, allowRateLimit);
        assert entries[i] == Entry(enclosing, value.items[i]);
        ok := AddRule(value.items[i], enclosing);
        if !ok {
          PrefixRefused(old(View()), entries, i + 1, allowRateLimit);
          return;
        }
      }
      assert entries[..|entries|] == entries;
      return true;
    }

    method AddTools(agent: string, tools: seq<(Yaml, Yaml)>) returns (ok: bool)
      requires Valid()
      modifies this
      ensures ok <==> AddAll(old(View()), ToolEntries(agent, tools), allowRateLimit).Some?
      ensures ok ==> Valid() && View() == AddAll(old(View()), ToolEntries(agent, tools), allowRateLimit).value
    {
      for i := 0 to |tools|
        invariant Valid()
        invariant AddAll(old(View()), ToolEntries(agent, tools[..i]), allowRateLimit) == Some(View())
      {
        assert tools[..i + 1][..i] == tools[..i];
        ghost var before := ToolEntries(agent, tools[..i]).value;
        var toolRules := OnlyField(tools[i].1, "rules");
        if !tools[i].0.Text? || toolRules.None? {
          assert ToolEntries(agent, tools[..i + 1]).None?;
          ToolsRefused(agent, tools, i + 1);
          return false;
        }
        var scope := Scope(agent, tools[i].0.text);
        ok := AddRules(toolRules.value, scope);
        AddAllBoth(old(View()), Some(before), RuleEntries(toolRules.value, scope), allowRateLimit);
        if !ok {
          ToolsStayRefused(old(View()), agent, tools, i + 1, allowRateLimit);
          return;
        }
      }
      assert tools[..|tools|] == tools;
      return true;
    }

    method AddAgents(agents: seq<(Yaml, Yaml)>) returns (ok: bool)
      requires Valid()
      modifies this
      ensures ok <==> AddAll(old(View()), AgentEntries(agents), allowRateLimit).Some?
      ensures ok ==> Valid() && View() == AddAll(old(View()), AgentEntries(agents), allowRateLimit).value
    {
      for i := 0 to |agents|
        invariant Valid()
        invariant AddAll(old(View()), AgentEntries(agents[..i]), allowRateLimit) == Some(View())
      {
        assert agents[..i + 1][..i] == agents[..i];
        ghost var before := AgentEntries(agents[..i]).value;
        var tools := OnlyField(agents[i].1, "tools");
        if !agents[i].0.Text? || tools.None? || !tools.value.Mapping? {
          assert AgentEntries(agents[..i + 1]).None?;
          AgentsRefused(agents, i + 1);
          return false;
        }
        ok := AddTools(agents[i].0.text, tools.value.fields);
        AddAllBoth(old(View()), Some(before), ToolEntries(agents[i].0.text, tools.value.fields), allowRateLimit);
        if !ok {
          AgentsStayRefused(old(View()), agents, i + 1, allowRateLimit);
          return;
        }
      }
      assert agents[..|agents|] == agents;
      return true;
    }
  }

  // ----- refusals and concatenation -----

  /** Adding a list of entries that may not even exist. */
  ghost function AddAll(c: Collected, entries: Option<seq<Entry>>, allowRateLimit: bool): Option<Collected> {
    if entries.None? then None else AddEntries(c, entries.value, allowRateLimit)
  }

  lemma {:induction false} AddEntriesConcat(c: Collected, a: seq<Entry>, b: seq<Entry>, allowRateLimit: bool)
    ensures AddEntries(c, a + b, allowRateLimit) ==
      if AddEntries(c, a, allowRateLimit).None? then None
      else AddEntries(AddEntries(c, a, allowRateLimit).value, b, allowRateLimit)
    decreases |b|
  {
    if b == [] {
      assert a + b == a;
    } else {
      var init := b[..|b| - 1];
      assert (a + b)[..|a + b| - 1] == a + init;
      AddEntriesConcat(c, a, init, allowRateLimit);
    }
  }

  lemma NextEntry(c: Collected, entries: seq<Entry>, i: nat, allowRateLimit: bool)
    requires i < |entries| && AddEntries(c, entries[..i], allowRateLimit).Some?
    ensures AddEntries(c, entries[..i + 1], allowRateLimit)
         == AddEntry(AddEntries(c, entries[..i], allowRateLimit).value, entries[i], allowRateLimit)
  {
    assert entries[..i + 1][..i] == entries[..i];
  }

  lemma AddAllBoth(c: Collected, a: Option<seq<Entry>>, b: Option<seq<Entry>>, allowRateLimit: bool)
    ensures AddAll(c, Both(a, b), allowRateLimit) ==
      if AddAll(c, a, allowRateLimit).None? then None else AddAll(AddAll(c, a, allowRateLimit).value, b, allowRateLimit)
  {
    if a.Some? && b.Some? {
      AddEntriesConcat(c, a.value, b.value, allowRateLimit);
    }
  }

  lemma PrefixRefused(c: Collected, entries: seq<Entry>, k: nat, allowRateLimit: bool)
    requires k <= |entries| && AddEntries(c, entries[..k], allowRateLimit).None?
    ensures AddEntries(c, entries, allowRateLimit).None?
  {
    assert entries[..k] + entries[k..] == entries;
    AddEntriesConcat(c, entries[..k], entries[k..], allowRateLimit);
  }

  lemma {:induction false} ToolsRefused(agent: string, tools: seq<(Yaml, Yaml)>, k: nat)
    requires k <= |tools| && ToolEntries(agent, tools[..k]).None?
    ensures ToolEntries(agent, tools).None?
    decreases |tools|
  {
    if k == |tools| {
      assert tools[..k] == tools;
    } else {
      assert tools[..|tools| - 1][..k] == tools[..k];
      ToolsRefused(agent, tools[..|tools| - 1], k);
    }
  }

  lemma {:induction false} ToolsStayRefused(c: Collected, agent: string, tools: seq<(Yaml, Yaml)>, k: nat, allowRateLimit: bool)
    requires k <= |tools| && AddAll(c, ToolEntries(agent, tools[..k]), allowRateLimit).None?
    ensures AddAll(c, ToolEntries(agent, tools), allowRateLimit).None?
    decreases |tools|
  {
    if k == |tools| {
      assert tools[..k] == tools;
    } else {
      var init, last := tools[..|tools| - 1], tools[|tools| - 1];
      assert init[..k] == tools[..k];
      ToolsStayRefused(c, agent, init, k, allowRateLimit);
      var rules := OnlyField(last.1, "rules");
      if last.0.Text? && rules.Some? {
        AddAllBoth(c, ToolEntries(agent, init), RuleEntries(rules.value, Scope(agent, last.0.text)), allowRateLimit);
      }
    }
  }

  lemma {:induction false} AgentsRefused(agents: seq<(Yaml, Yaml)>, k: nat)
    requires k <= |agents| && AgentEntries(agents[..k]).None?
    ensures AgentEntries(agents).None?
    decreases |agents|
  {
    if k == |agents| {
      assert agents[..k] == agents;
    } else {
      assert agents[..|agents| - 1][..k] == agents[..k];
      AgentsRefused(agents[..|agents| - 1], k);
    }
  }

  lemma {:induction false} AgentsStayRefused(c: Collected, agents: seq<(Yaml, Yaml)>, k: nat, allowRateLimit: bool)
    requires k <= |agents| && AddAll(c, AgentEntries(agents[..k]), allowRateLimit).None?
    ensures AddAll(c, AgentEntries(agents), allowRateLimit).None?
    decreases |agents|
  {
    if k == |agents| {
      assert agents[..k] == agents;
    } else {
      var init, last := agents[..|agents| - 1], agents[|agents| - 1];
      assert init[..k] == agents[..k];
      AgentsStayRefused(c, init, k, allowRateLimit);
      var tools := OnlyField(last.1, "tools");
      if last.0.Text? && tools.Some? && tools.value.Mapping? {
        AddAllBoth(c, AgentEntries(init), ToolEntries(last.0.text, tools.value.fields), allowRateLimit);
      }
    }
  }

  // ----- the whole document -----

  /** What the sections of a document have collected, as one value. */
  ghost function CollectedFrom(fields: seq<(Yaml, Yaml)>, allowRateLimit: bool): Option<(Collected, Action)> {
    var outline := OutlineOf(fields);
    if outline.None? then None
    else
      var collected := AddEntries(NOTHING, outline.value.entries, allowRateLimit);
      if collected.None? then None else Some((collected.value, outline.value.defaultAction))
  }

  lemma {:induction false} SectionsStayRefused(fields: seq<(Yaml, Yaml)>, k: nat, allowRateLimit: bool)
    requires k <= |fields| && CollectedFrom(fields[..k], allowRateLimit).None?
    ensures CollectedFrom(fields, allowRateLimit).None?
    decreases |fields|
  {
    if k == |fields| {
      assert fields[..k] == fields;
    } else {
      var init := fields[..|fields| - 1];
      assert init[..k] == fields[..k];
      SectionsStayRefused(init, k, allowRateLimit);
      if OutlineOf(init).Some? && OutlineOf(fields).Some? {
        var a, b := OutlineOf(init).value.entries, OutlineOf(fields).value.entries;
        assert a <= b;
        assert b[..|a|] == a;
        PrefixRefused(NOTHING, b, |a|, allowRateLimit);
      }
    }
  }

  /** A section without rules sets the default action, leaves it, or is refused. */
  lemma SettingAdds(fields: seq<(Yaml, Yaml)>, allowRateLimit: bool, action: Option<Action>)
    requires fields != [] && CollectedFrom(fields[..|fields| - 1], allowRateLimit).Some?
    requires var (key, value) := fields[|fields| - 1];
      && !IsKey(key, "rules") && !IsKey(key, "agents")
      && action ==
           if IsKey(key, "version") then Some(CollectedFrom(fields[..|fields| - 1], allowRateLimit).value.1)
           else if IsKey(key, "global") && value.Mapping? then GlobalAction(value.fields)
           else None
    ensures CollectedFrom(fields, allowRateLimit) ==
      if action.None? then None
      else Some((CollectedFrom(fields[..|fields| - 1], allowRateLimit).value.0, action.value))
  {
  }

  lemma SectionAdds(fields: seq<(Yaml, Yaml)>, allowRateLimit: bool, entries: Option<seq<Entry>>)
    requires fields != [] && CollectedFrom(fields[..|fields| - 1], allowRateLimit).Some?
    requires var (key, value) := fields[|fields| - 1];
      || (IsKey(key, "rules") && entries == RuleEntries(value, map[]))
      || (IsKey(key, "agents") && entries == if value.Mapping? then AgentEntries(value.fields) else None)
    ensures var (before, action) := CollectedFrom(fields[..|fields| - 1], allowRateLimit).value;
      CollectedFrom(fields, allowRateLimit) ==
        if AddAll(before, entries, allowRateLimit).None? then None
        else Some((AddAll(before, entries, allowRateLimit).value, action))
  {
    if entries.Some? {
      AddEntriesConcat(NOTHING, OutlineOf(fields[..|fields| - 1]).value.entries, entries.value, allowRateLimit);
    }
  }

  /** Parses a document of a known version, section by section. */
  method ParseVersion(document: Yaml, version: int) returns (r: Option<Engine>)
    ensures r == ParseDocument(document, version)
  {
    if !document.Mapping? {
      return None;
    }
    var builder := new PolicyBuilder(version == 2);
    var defaultAction := Allow;
    var fields := document.fields;
    for i := 0 to |fields|
      invariant builder.Valid() && fresh(builder) && builder.allowRateLimit == (version == 2)
      invariant CollectedFrom(fields[..i], version == 2) == Some((builder.View(), defaultAction))
    {
      assert fields[..i + 1][..i] == fields[..i];
      var (key, value) := fields[i];
      var ok := true;
      if IsKey(key, "version") {
        SettingAdds(fields[..i + 1], version == 2, Some(defaultAction));
      } else if IsKey(key, "global") {
        var action := if value.Mapping? then GlobalAction(value.fields) else None;
        SettingAdds(fields[..i + 1], version == 2, action);
        ok := action.Some?;
        if ok {
          defaultAction := action.value;
        }
      } else if IsKey(key, "rules") {
        ok := builder.AddRules(value, map[]);
        SectionAdds(fields[..i + 1], version == 2, RuleEntries(value, map[]));
      } else if IsKey(key, "agents") {
        ok := false;
        if value.Mapping? {
          ok := builder.AddAgents(value.fields);
        }
        SectionAdds(fields[..i + 1], version == 2, if value.Mapping? then AgentEntries(value.fields) else None);
      } else {
        SettingAdds(fields[..i + 1], version == 2, None);
        ok := false;
      }
      if !ok {
        SectionsStayRefused(fields, i + 1, version == 2);
        return None;
      }
    }
    assert fields[..|fields|] == fields;
    r := Some(Engine(builder.rules, builder.rateLimits, version, defaultAction));
  }
}
