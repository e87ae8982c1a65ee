/** What a policy document says: its rules in document order, each with the scope that encloses it. */
module PolicySpec {
  import opened Common
  import opened Conditions
  import opened ConditionSpec
  import opened Resolution
  import opened RateLimitSpec

  const MAX_U64 := 0xFFFF_FFFF_FFFF_FFFF
  const MAX_LIMIT := 86_400

  function ParseAction(text: string): Option<Action> {
    if text == "allow" then Some(Allow)
    else if text == "deny" then Some(Deny)
    else if text == "throttle" then Some(Throttle)
    else if text == "log" then Some(Log)
    else if text == "require_approval" then Some(RequireApproval)
    else if text == "redirect" then Some(Redirect)
    else None
  }

  function AsU64(y: Yaml): Option<nat> {
    if y.Number? && 0 <= y.number <= MAX_U64 then Some(y.number) else None
  }

  /** The value of the last field with this key, as an unsigned number. */
  function LastU64(fields: seq<(Yaml, Yaml)>, name: string): Option<nat> {
    if fields == [] then None
    else if IsKey(fields[|fields| - 1].0, name) then AsU64(fields[|fields| - 1].1)
    else LastU64(fields[..|fields| - 1], name)
  }

  function ParseRateLimit(value: Yaml): (r: Option<RateLimit>)
    ensures r.Some? ==> 1 <= r.value.maxCalls <= MAX_LIMIT && 1 <= r.value.windowSeconds <= MAX_LIMIT
  {
    if !value.Mapping? || |value.fields| != 2 then None
    else if exists i :: 0 <= i < 2
              && !IsKey(value.fields[i].0, "max_calls") && !IsKey(value.fields[i].0, "window_seconds") then None
    else
      var maxCalls, windowSeconds := LastU64(value.fields, "max_calls"), LastU64(value.fields, "window_seconds");
      if maxCalls.Some? && windowSeconds.Some?
         && 1 <= maxCalls.value <= MAX_LIMIT && 1 <= windowSeconds.value <= MAX_LIMIT
      then Some(RateLimit(maxCalls.value, windowSeconds.value))
      else None
  }

  /** Field `i` of a rate limit gives the number of calls, and the other one the window. */
  predicate GivesLimit(fields: seq<(Yaml, Yaml)>, i: nat, limit: RateLimit)
    requires |fields| == 2 && i < 2
  {
    && IsKey(fields[i].0, "max_calls") && AsU64(fields[i].1) == Some(limit.maxCalls)
    && IsKey(fields[1 - i].0, "window_seconds") && AsU64(fields[1 - i].1) == Some(limit.windowSeconds)
  }

  /** A rate limit is accepted exactly if it is these two fields, in either order, each with a number in 1..86400. */
  lemma RateLimitAcceptedExactly(value: Yaml, limit: RateLimit)
    ensures ParseRateLimit(value) == Some(limit) <==>
      && value.Mapping? && |value.fields| == 2
      && (GivesLimit(value.fields, 0, limit) || GivesLimit(value.fields, 1, limit))
      && 1 <= limit.maxCalls <= MAX_LIMIT && 1 <= limit.windowSeconds <= MAX_LIMIT
  {
    if value.Mapping? && |value.fields| == 2 {
      LastOfTwo(value.fields, "max_calls");
      LastOfTwo(value.fields, "window_seconds");
      assert |"max_calls"| != |"window_seconds"|;
    }
  }

  lemma LastOfTwo(fields: seq<(Yaml, Yaml)>, name: string)
    requires |fields| == 2
    ensures LastU64(fields, name) ==
      if IsKey(fields[1].0, name) then AsU64(fields[1].1)
      else if IsKey(fields[0].0, name) then AsU64(fields[0].1)
      else None
  {
    var first := fields[..1];
    assert first[0] == fields[0] && first[..0] == [];
    assert LastU64(first, name) == if IsKey(fields[0].0, name) then AsU64(fields[0].1) else None;
  }

  function ParseContext(fields: seq<(Yaml, Yaml)>, parsed: map<string, string>): Option<map<string, string>> {
    if fields == [] then Some(parsed)
    else
      var (key, value) := fields[0];
      if !key.Text? || !IsPlainText(value) then None
      else ParseContext(fields[1..], parsed[CONTEXT_PREFIX + key.text := value.text])
  }

  function ParseTargetFields(fields: seq<(Yaml, Yaml)>, parsed: map<string, string>): Option<map<string, string>> {
    if fields == [] then Some(parsed)
    else
      var (key, value) := fields[0];
      if IsKey(key, "agent") || IsKey(key, "tool") || IsKey(key, "user") then
        if IsPlainText(value) then ParseTargetFields(fields[1..], parsed[key.text := value.text]) else None
      else if IsKey(key, "context") && value.Mapping? then
        var context := ParseContext(value.fields, parsed);
        if context.None? then None else ParseTargetFields(fields[1..], context.value)
      else None
  }

  function ParseTarget(target: Option<Yaml>): Option<map<string, string>> {
    if target.None? then Some(map[])
    else if !target.value.Mapping? then None
    else ParseTargetFields(target.value.fields, map[])
  }

  /** The enclosing agent and tool are added to the target, unless it names others. */
  function AddEnclosing(target: map<string, string>, enclosing: map<string, string>): Option<map<string, string>> {
    if exists key :: key in enclosing && key in target && target[key] != enclosing[key] then None
    else Some(target + enclosing)
  }

  /** The fields of one rule as they are read, before they are checked together. */
  datatype Draft = Draft(
    action: Option<string>,
    target: Option<Yaml>,
    condition: Option<Yaml>,
    id: Option<string>,
    rateLimit: Option<RateLimit>)

  const EMPTY_DRAFT := Draft(None, None, None, None, None)

  function ReadRuleField(field: (Yaml, Yaml), draft: Draft, allowRateLimit: bool): Option<Draft> {
    var (key, value) := field;
    if IsKey(key, "action") then
      if value.Text? then Some(draft.(action := Some(value.text))) else None
    else if IsKey(key, "target") then Some(draft.(target := Some(value)))
    else if IsKey(key, "condition") then Some(draft.(condition := Some(value)))
    else if IsKey(key, "id") then
      if IsPlainText(value) then Some(draft.(id := Some(value.text))) else None
    else if IsKey(key, "rate_limit") && allowRateLimit then
      var limit := ParseRateLimit(value);
      if limit.Some? then Some(draft.(rateLimit := limit)) else None
    else None
  }

  function ReadRule(fields: seq<(Yaml, Yaml)>, draft: Draft, allowRateLimit: bool): Option<Draft> {
    if fields == [] then Some(draft)
    else
      var next := ReadRuleField(fields[0], draft, allowRateLimit);
      if next.None? then None else ReadRule(fields[1..], next.value, allowRateLimit)
  }

  /** A raw rule together with the agent and tool that enclose it. */
  datatype Entry = Entry(enclosing: map<string, string>, raw: Yaml)

  /** What has been collected so far. */
  datatype Collected = Collected(rules: seq<Rule>, ids: set<string>, rateLimits: map<nat, RateLimit>)

  const NOTHING := Collected([], {}, map[])

  function AddDraft(c: Collected, draft: Draft, enclosing: map<string, string>): Option<Collected> {
    if draft.action.None? || (draft.id.Some? && draft.id.value in c.ids) then None
    else
      var action := ParseAction(draft.action.value);
      var target := ParseTarget(draft.target);
      if action.None? || (draft.rateLimit.Some? && action.value != Allow) || target.None? then None
      else
        var scoped := AddEnclosing(target.value, enclosing);
        var condition := if draft.condition.None? then Some(NO_CONDITION)
                         else ParseCondition(draft.condition.value, 1, 0).condition;
        if scoped.None? || condition.None? then None
        else
          var index := |c.rules|;
          Some(Collected(
            c.rules + [Rule(action.value, scoped.value, condition.value, index)],
            if draft.id.Some? then c.ids + {draft.id.value} else c.ids,
            if draft.rateLimit.Some? then c.rateLimits[index := draft.rateLimit.value] else c.rateLimits))
  }

  function AddEntry(c: Collected, e: Entry, allowRateLimit: bool): Option<Collected> {
    if !e.raw.Mapping? then None
    else
      var draft := ReadRule(e.raw.fields, EMPTY_DRAFT, allowRateLimit);
      if draft.None? then None else AddDraft(c, draft.value, e.enclosing)
  }

  function AddEntries(c: Collected, entries: seq<Entry>, allowRateLimit: bool): Option<Collected>
    decreases |entries|
  {
    if entries == [] then Some(c)
    else
      var before := AddEntries(c, entries[..|entries| - 1], allowRateLimit);
      if before.None? then None else AddEntry(before.value, entries[|entries| - 1], allowRateLimit)
  }

  // ----- the document as one list of entries -----

  /** A mapping whose only field is `name`. */
  function OnlyField(y: Yaml, name: string): Option<Yaml> {
    if y.Mapping? && y.fields != [] && forall i :: 0 <= i < |y.fields| ==> IsKey(y.fields[i].0, name)
    then Some(y.fields[|y.fields| - 1].1)
    else None
  }

  function RuleEntries(rules: Yaml, enclosing: map<string, string>): Option<seq<Entry>> {
    if rules.Sequence? then Some(seq(|rules.items|, i requires 0 <= i < |rules.items| => Entry(enclosing, rules.items[i])))
    else None
  }

  function Scope(agent: string, tool: string): map<string, string> {
    map["agent" := agent, "tool" := tool]
  }

  function Both(a: Option<seq<Entry>>, b: Option<seq<Entry>>): Option<seq<Entry>> {
    if a.None? || b.None? then None else Some(a.value + b.value)
  }

  function ToolEntries(agent: string, tools: seq<(Yaml, Yaml)>): Option<seq<Entry>>
    decreases |tools|
  {
    if tools == [] then Some([])
    else
      var before, (name, config) := ToolEntries(agent, tools[..|tools| - 1]), tools[|tools| - 1];
      var rules := OnlyField(config, "rules");
      if !name.Text? || rules.None? then None
      else Both(before, RuleEntries(rules.value, Scope(agent, name.text)))
  }

  function AgentEntries(agents: seq<(Yaml, Yaml)>): Option<seq<Entry>>
    decreases |agents|
  {
    if agents == [] then Some([])
    else
      var before, (name, config) := AgentEntries(agents[..|agents| - 1]), agents[|agents| - 1];
      var tools := OnlyField(config, "tools");
      if !name.Text? || tools.None? || !tools.value.Mapping? then None
      else Both(before, ToolEntries(name.text, tools.value.fields))
  }

  /** The default action of a "global" section. */
  function GlobalAction(fields: seq<(Yaml, Yaml)>): Option<Action>
    decreases |fields|
  {
    if fields == [] then Some(Allow)
    else
      var before, (key, value) := GlobalAction(fields[..|fields| - 1]), fields[|fields| - 1];
      if before.None? || !IsKey(key, "default_action") || !value.Text? then None else ParseAction(value.text)
  }

  datatype Outline = Outline(entries: seq<Entry>, defaultAction: Action)

  /** The top-level sections, in document order. */
  function OutlineOf(fields: seq<(Yaml, Yaml)>): Option<Outline>
    decreases |fields|
  {
    if fields == [] then Some(Outline([], Allow))
    else
      var before, (key, value) := OutlineOf(fields[..|fields| - 1]), fields[|fields| - 1];
      if before.None? then None
      else if IsKey(key, "version") then before
      else if IsKey(key, "global") then
        var action := if value.Mapping? then GlobalAction(value.fields) else None;
        if action.None? then None else Some(before.value.(defaultAction := action.value))
      else
        var entries :=
          if IsKey(key, "rules") then RuleEntries(value, map[])
          else if IsKey(key, "agents") && value.Mapping? then AgentEntries(value.fields)
          else None;
        if entries.None? then None else Some(before.value.(entries := before.value.entries + entries.value))
  }

  /** The policy that a document of the given version stands for. */
  function ParseDocument(document: Yaml, version: int): Option<Engine> {
    var outline := if document.Mapping? then OutlineOf(document.fields) else None;
    if outline.None? then None
    else
      var collected := AddEntries(NOTHING, outline.value.entries, version == 2);
      if collected.None? then None
      else Some(Engine(collected.value.rules, collected.value.rateLimits, version, outline.value.defaultAction))
  }

  /** The version that a document declares. */
  function DeclaredVersion(document: Yaml): Option<int> {
    if document.Mapping? then FirstVersion(document.fields) else None
  }

  function FirstVersion(fields: seq<(Yaml, Yaml)>): Option<int> {
    if fields == [] then None
    else if IsKey(fields[0].0, "version") then
      if fields[0].1.Number? && -0x8000_0000_0000_0000 <= fields[0].1.number <= 0x7FFF_FFFF_FFFF_FFFF
      then Some(fields[0].1.number)
      else None
    else FirstVersion(fields[1..])
  }

  /** The general parser accepts version 1 only, and the rate-limited one version 2 only. */
  function Parse(document: Yaml, version: int): Option<Engine> {
    if DeclaredVersion(document) == Some(version) then ParseDocument(document, version) else None
  }

  // ----- what every parsed policy satisfies -----

  /** The parsed rules are those of the entries, one for one. */
  ghost predicate CollectsInOrder(rules: seq<Rule>, rateLimits: map<nat, RateLimit>, entries: seq<Entry>) {
    && |rules| == |entries|
    && (forall k :: 0 <= k < |rules| ==> rules[k].ruleIndex == k)
    && (forall k :: 0 <= k < |rules| ==>
          forall key :: key in entries[k].enclosing ==>
            key in rules[k].target && rules[k].target[key] == entries[k].enclosing[key])
    && (forall index :: index in rateLimits ==>
          && index < |rules| && rules[index].action == Allow
          && 1 <= rateLimits[index].maxCalls <= MAX_LIMIT
          && 1 <= rateLimits[index].windowSeconds <= MAX_LIMIT)
  }

  lemma {:induction false} ReadRuleLimits(fields: seq<(Yaml, Yaml)>, draft: Draft, allowRateLimit: bool)
    requires draft.rateLimit.Some? ==>
      allowRateLimit && 1 <= draft.rateLimit.value.maxCalls <= MAX_LIMIT && 1 <= draft.rateLimit.value.windowSeconds <= MAX_LIMIT
    ensures var r := ReadRule(fields, draft, allowRateLimit);
      r.Some? && r.value.rateLimit.Some? ==>
        && allowRateLimit
        && 1 <= r.value.rateLimit.value.maxCalls <= MAX_LIMIT
        && 1 <= r.value.rateLimit.value.windowSeconds <= MAX_LIMIT
    decreases |fields|
  {
    if fields != [] {
      var next := ReadRuleField(fields[0], draft, allowRateLimit);
      if next.Some? {
        ReadRuleLimits(fields[1..], next.value, allowRateLimit);
      }
    }
  }

  /** What one more entry adds: a rule in its scope, numbered by its position, and perhaps a limit. */
  lemma OneMoreRule(c: Collected, e: Entry, allowRateLimit: bool)
    requires AddEntry(c, e, allowRateLimit).Some?
    ensures var c' := AddEntry(c, e, allowRateLimit).value;
      && |c'.rules| == |c.rules| + 1 && c'.rules[..|c.rules|] == c.rules
      && c'.rules[|c.rules|].ruleIndex == |c.rules|
      && (forall key :: key in e.enclosing ==>
            key in c'.rules[|c.rules|].target && c'.rules[|c.rules|].target[key] == e.enclosing[key])
      && (c'.rateLimits == c.rateLimits
          || exists limit: RateLimit ::
               && c'.rateLimits == c.rateLimits[|c.rules| := limit]
               && allowRateLimit && c'.rules[|c.rules|].action == Allow
               && 1 <= limit.maxCalls <= MAX_LIMIT && 1 <= limit.windowSeconds <= MAX_LIMIT)
  {
    ReadRuleLimits(e.raw.fields, EMPTY_DRAFT, allowRateLimit);
  }

  lemma CollectsOneMore(c: Collected, init: seq<Entry>, e: Entry, allowRateLimit: bool)
    requires CollectsInOrder(c.rules, c.rateLimits, init) && AddEntry(c, e, allowRateLimit).Some?
    ensures var c' := AddEntry(c, e, allowRateLimit).value;
      CollectsInOrder(c'.rules, c'.rateLimits, init + [e])
    ensures !allowRateLimit && c.rateLimits == map[] ==> AddEntry(c, e, allowRateLimit).value.rateLimits == map[]
  {
    OneMoreRule(c, e, allowRateLimit);
    var c' := AddEntry(c, e, allowRateLimit).value;
    assert forall k :: 0 <= k < |c.rules| ==> c'.rules[k] == c'.rules[..|c.rules|][k];
  }

  lemma {:induction false} EntriesCollectInOrder(entries: seq<Entry>, allowRateLimit: bool)
    requires AddEntries(NOTHING, entries, allowRateLimit).Some?
    ensures var c := AddEntries(NOTHING, entries, allowRateLimit).value;
      CollectsInOrder(c.rules, c.rateLimits, entries) && (!allowRateLimit ==> c.rateLimits == map[])
    decreases |entries|
  {
    if entries != [] {
      var init, e := entries[..|entries| - 1], entries[|entries| - 1];
      EntriesCollectInOrder(init, allowRateLimit);
      var c := AddEntries(NOTHING, init, allowRateLimit).value;
      assert init + [e] == entries;
      CollectsOneMore(c, init, e, allowRateLimit);
    }
  }

  // ----- which lists of entries are accepted -----

  function EntryId(e: Entry, allowRateLimit: bool): Option<string> {
    if !e.raw.Mapping? then None
    else
      var draft := ReadRule(e.raw.fields, EMPTY_DRAFT, allowRateLimit);
      if draft.Some? then draft.value.id else None
  }

  /** The entry is acceptable on its own. */
  predicate EntryOk(e: Entry, allowRateLimit: bool) {
    AddEntry(NOTHING, e, allowRateLimit).Some?
  }

  predicate DistinctIds(entries: seq<Entry>, allowRateLimit: bool) {
    forall i, j :: 0 <= i < j < |entries| && EntryId(entries[i], allowRateLimit).Some? ==>
      EntryId(entries[i], allowRateLimit) != EntryId(entries[j], allowRateLimit)
  }

  /** An acceptable entry is refused only for an id that is taken. */
  lemma RefusedOnlyForId(c: Collected, e: Entry, allowRateLimit: bool)
    ensures AddEntry(c, e, allowRateLimit).Some? <==>
      EntryOk(e, allowRateLimit)
      && (EntryId(e, allowRateLimit).Some? ==> EntryId(e, allowRateLimit).value !in c.ids)
    ensures AddEntry(c, e, allowRateLimit).Some? ==>
      AddEntry(c, e, allowRateLimit).value.ids ==
        c.ids + if EntryId(e, allowRateLimit).Some? then {EntryId(e, allowRateLimit).value} else {}
  {
  }

  /** The ids that the entries carry. */
  ghost function IdsOf(entries: seq<Entry>, allowRateLimit: bool): set<string> {
    set k | 0 <= k < |entries| && EntryId(entries[k], allowRateLimit).Some? :: EntryId(entries[k], allowRateLimit).value
  }

  lemma IdsOfOneMore(init: seq<Entry>, e: Entry, allowRateLimit: bool)
    ensures var id := EntryId(e, allowRateLimit);
      IdsOf(init + [e], allowRateLimit) == IdsOf(init, allowRateLimit) + if id.Some? then {id.value} else {}
  {
    var entries, id := init + [e], EntryId(e, allowRateLimit);
    forall x | x in IdsOf(init, allowRateLimit) ensures x in IdsOf(entries, allowRateLimit) {
      var k :| 0 <= k < |init| && EntryId(init[k], allowRateLimit) == Some(x);
      assert entries[k] == init[k];
    }
    if id.Some? {
      assert entries[|init|] == e;
    }
  }

  lemma DistinctIdsOfOneMore(init: seq<Entry>, e: Entry, allowRateLimit: bool)
    ensures var id := EntryId(e, allowRateLimit);
      DistinctIds(init + [e], allowRateLimit) <==>
        DistinctIds(init, allowRateLimit) && (id.Some? ==> id.value !in IdsOf(init, allowRateLimit))
  {
    var entries, id := init + [e], EntryId(e, allowRateLimit);
    assert forall k :: 0 <= k < |init| ==> entries[k] == init[k];
    assert entries[|init|] == e;
    if id.Some? && id.value in IdsOf(init, allowRateLimit) {
      var k :| 0 <= k < |init| && EntryId(init[k], allowRateLimit) == id;
      assert EntryId(entries[k], allowRateLimit) == EntryId(entries[|init|], allowRateLimit);
    }
  }

  /** A list of entries is accepted exactly if every entry is acceptable on its own and no id occurs twice. */
  lemma {:induction false} EntriesAcceptedExactly(entries: seq<Entry>, allowRateLimit: bool)
    ensures AddEntries(NOTHING, entries, allowRateLimit).Some? <==>
      && (forall k :: 0 <= k < |entries| ==> EntryOk(entries[k], allowRateLimit))
      && DistinctIds(entries, allowRateLimit)
    ensures AddEntries(NOTHING, entries, allowRateLimit).Some? ==>
      AddEntries(NOTHING, entries, allowRateLimit).value.ids == IdsOf(entries, allowRateLimit)
    decreases |entries|
  {
    if entries != [] {
      var init, e := entries[..|entries| - 1], entries[|entries| - 1];
      assert entries == init + [e];
      EntriesAcceptedExactly(init, allowRateLimit);
      IdsOfOneMore(init, e, allowRateLimit);
      DistinctIdsOfOneMore(init, e, allowRateLimit);
      AllOkOfOneMore(init, e, allowRateLimit);
      var before := AddEntries(NOTHING, init, allowRateLimit);
      if before.Some? {
        RefusedOnlyForId(before.value, e, allowRateLimit);
      }
    }
  }

  lemma AllOkOfOneMore(init: seq<Entry>, e: Entry, allowRateLimit: bool)
    ensures (forall k :: 0 <= k < |init + [e]| ==> EntryOk((init + [e])[k], allowRateLimit)) <==>
      (forall k :: 0 <= k < |init| ==> EntryOk(init[k], allowRateLimit)) && EntryOk(e, allowRateLimit)
  {
    var entries := init + [e];
    assert forall k :: 0 <= k < |init| ==> entries[k] == init[k];
    assert entries[|init|] == e;
  }

  /**
   Every parsed policy numbers its rules by their position in the document, keeps
   the enclosing agent and tool in each nested rule, and has limits only on
   allow rules, within bounds, and only in version 2.
   */
  lemma ParsedPolicyIsWellFormed(document: Yaml, version: int)
    requires Parse(document, version).Some?
    ensures document.Mapping? && OutlineOf(document.fields).Some?
    ensures var engine := Parse(document, version).value;
      var entries := OutlineOf(document.fields).value.entries;
      && CollectsInOrder(engine.rules, engine.rateLimits, entries)
      && (version != 2 ==> engine.rateLimits == map[])
  {
    EntriesCollectInOrder(OutlineOf(document.fields).value.entries, version == 2);
  }
}
