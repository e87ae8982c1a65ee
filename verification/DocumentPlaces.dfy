/** Where the rules of a policy document stand, and in which order they are numbered. */
module DocumentPlaces {
  import opened Conditions
  import opened PolicySpec
  import opened TargetFields

  /** The value of a mapping that has one field. */
  predicate IsSole(y: Yaml, name: string) {
    y.Mapping? && |y.fields| == 1 && IsKey(y.fields[0].0, name)
  }

  function Sole(y: Yaml): Yaml
    requires y.Mapping? && |y.fields| == 1
  {
    y.fields[0].1
  }

  predicate IsRuleList(y: Yaml, item: nat) {
    y.Sequence? && item < |y.items|
  }

  /** Tool `t` has a rule `item`. */
  predicate InTools(tools: seq<(Yaml, Yaml)>, t: nat, item: nat) {
    t < |tools| && tools[t].0.Text? && IsSole(tools[t].1, "rules") && IsRuleList(Sole(tools[t].1), item)
  }

  /** Agent `a` has a tool `t` with a rule `item`. */
  predicate InAgents(agents: seq<(Yaml, Yaml)>, a: nat, t: nat, item: nat) {
    && a < |agents| && agents[a].0.Text? && IsSole(agents[a].1, "tools") && Sole(agents[a].1).Mapping?
    && InTools(Sole(agents[a].1).fields, t, item)
  }

  /** A rule of a top-level list, or of a tool of an agent, each by its position. */
  datatype Place =
    | TopLevel(section: nat, item: nat)
    | Nested(section: nat, agent: nat, tool: nat, item: nat)

  predicate InDocument(fields: seq<(Yaml, Yaml)>, p: Place) {
    && p.section < |fields|
    && match p
       case TopLevel(i, item) => IsKey(fields[i].0, "rules") && IsRuleList(fields[i].1, item)
       case Nested(i, a, t, item) =>
         IsKey(fields[i].0, "agents") && fields[i].1.Mapping? && InAgents(fields[i].1.fields, a, t, item)
  }

  /** The raw rule at a place. */
  function ItemAt(fields: seq<(Yaml, Yaml)>, p: Place): Yaml
    requires InDocument(fields, p)
  {
    match p
    case TopLevel(i, item) => fields[i].1.items[item]
    case Nested(i, a, t, item) => Sole(Sole(fields[i].1.fields[a].1).fields[t].1).items[item]
  }

  /** What encloses the rule at a place: nothing, or the names of its agent and of its tool. */
  function ScopeAt(fields: seq<(Yaml, Yaml)>, p: Place): map<string, string>
    requires InDocument(fields, p)
  {
    match p
    case TopLevel(_, _) => map[]
    case Nested(i, a, t, _) =>
      map["agent" := fields[i].1.fields[a].0.text, "tool" := Sole(fields[i].1.fields[a].1).fields[t].0.text]
  }

  /** `p` stands before `q` in the document. */
  predicate Before(p: Place, q: Place) {
    || p.section < q.section
    || (p.section == q.section
        && match (p, q)
           case (TopLevel(_, k), TopLevel(_, l)) => k < l
           case (Nested(_, a, t, k), Nested(_, b, u, l)) => a < b || (a == b && (t < u || (t == u && k < l)))
           case _ => false)
  }

  /** No mapping on the way to the rules has a key twice. */
  predicate DistinctConfigs(fields: seq<(Yaml, Yaml)>) {
    forall i :: 0 <= i < |fields| && fields[i].1.Mapping? ==> DistinctFields(fields[i].1.fields)
  }

  predicate DistinctAgents(agents: seq<(Yaml, Yaml)>) {
    && DistinctConfigs(agents)
    && forall a :: 0 <= a < |agents| && IsSole(agents[a].1, "tools") && Sole(agents[a].1).Mapping? ==>
         DistinctConfigs(Sole(agents[a].1).fields)
  }

  predicate DistinctSections(fields: seq<(Yaml, Yaml)>) {
    forall i :: 0 <= i < |fields| && IsKey(fields[i].0, "agents") && fields[i].1.Mapping? ==>
      DistinctAgents(fields[i].1.fields)
  }

  lemma OnlyFieldIsSole(y: Yaml, name: string)
    requires y.Mapping? ==> DistinctFields(y.fields)
    ensures OnlyField(y, name).Some? <==> IsSole(y, name)
    ensures OnlyField(y, name).Some? ==> OnlyField(y, name).value == Sole(y)
  {
    if y.Mapping? && |y.fields| > 1 {
      assert IsKey(y.fields[0].0, name) ==> !IsKey(y.fields[1].0, name);
    }
  }

  // ----- one list of rules, and the tools of one agent -----

  /** The entries of one rule list. */
  lemma RuleListEntries(rules: Yaml, enclosing: map<string, string>)
    ensures RuleEntries(rules, enclosing).Some? <==> rules.Sequence?
    ensures RuleEntries(rules, enclosing).Some? ==>
      var entries := RuleEntries(rules, enclosing).value;
      |entries| == |rules.items| && forall k :: 0 <= k < |entries| ==> entries[k] == Entry(enclosing, rules.items[k])
  {
  }

  /** `at` are the positions of the rules of these tools, in order, and `entries` what stands there. */
  ghost predicate ListsTools(agent: string, tools: seq<(Yaml, Yaml)>, entries: seq<Entry>, at: seq<(nat, nat)>) {
    && |entries| == |at|
    && (forall r :: 0 <= r < |at| ==>
          && InTools(tools, at[r].0, at[r].1)
          && entries[r] == Entry(map["agent" := agent, "tool" := tools[at[r].0].0.text],
                                 Sole(tools[at[r].0].1).items[at[r].1]))
    && (forall r, s :: 0 <= r < s < |at| ==> at[r].0 < at[s].0 || (at[r].0 == at[s].0 && at[r].1 < at[s].1))
    && (forall t: nat, k: nat :: InTools(tools, t, k) ==> (t, k) in at)
  }

  ghost function PairsAt(t: nat, n: nat): (at: seq<(nat, nat)>)
    ensures |at| == n && forall k :: 0 <= k < n ==> at[k] == (t, k)
  {
    seq(n, k requires 0 <= k < n => (t, k))
  }

  lemma OneMoreTool(agent: string, tools: seq<(Yaml, Yaml)>, entries: seq<Entry>, at: seq<(nat, nat)>, n: nat)
    requires tools != [] && ListsTools(agent, tools[..|tools| - 1], entries, at)
    requires var (name, config) := tools[|tools| - 1];
      name.Text? && IsSole(config, "rules") && Sole(config).Sequence? && n == |Sole(config).items|
    ensures var (name, config) := tools[|tools| - 1];
      var more := RuleEntries(Sole(config), map["agent" := agent, "tool" := name.text]);
      more.Some? && ListsTools(agent, tools, entries + more.value, at + PairsAt(|tools| - 1, n))
  {
    var last, init := |tools| - 1, tools[..|tools| - 1];
    var all := at + PairsAt(last, n);
    assert forall t: nat, k: nat :: t < last ==> (InTools(init, t, k) <==> InTools(tools, t, k));
    forall t: nat, k: nat | InTools(tools, t, k) ensures (t, k) in all {
      if t < last {
        assert InTools(init, t, k);
      } else {
        assert all[|at| + k] == (t, k);
      }
    }
  }

  lemma {:induction false} ToolPlaces(agent: string, tools: seq<(Yaml, Yaml)>) returns (at: seq<(nat, nat)>)
    requires ToolEntries(agent, tools).Some? && DistinctConfigs(tools)
    ensures ListsTools(agent, tools, ToolEntries(agent, tools).value, at)
    decreases |tools|
  {
    if tools == [] {
      at := [];
    } else {
      var last := tools[|tools| - 1];
      at := ToolPlaces(agent, tools[..|tools| - 1]);
      OnlyFieldIsSole(last.1, "rules");
      OneMoreTool(agent, tools, ToolEntries(agent, tools[..|tools| - 1]).value, at, |Sole(last.1).items|);
      at := at + PairsAt(|tools| - 1, |Sole(last.1).items|);
    }
  }

  // ----- the agents of one section -----

  /** The entry is the rule at this position, in the scope of its agent and its tool. */
  predicate AgentHolds(agents: seq<(Yaml, Yaml)>, entry: Entry, x: (nat, nat, nat)) {
    && InAgents(agents, x.0, x.1, x.2)
    && var tools := Sole(agents[x.0].1).fields;
       entry == Entry(map["agent" := agents[x.0].0.text, "tool" := tools[x.1].0.text], Sole(tools[x.1].1).items[x.2])
  }

  ghost predicate ListsAgents(agents: seq<(Yaml, Yaml)>, entries: seq<Entry>, at: seq<(nat, nat, nat)>) {
    && |entries| == |at|
    && (forall r :: 0 <= r < |at| ==> AgentHolds(agents, entries[r], at[r]))
    && (forall r, s :: 0 <= r < s < |at| ==> TripleBefore(at[r], at[s]))
    && (forall a: nat, t: nat, k: nat :: InAgents(agents, a, t, k) ==> (a, t, k) in at)
  }

  predicate TripleBefore(x: (nat, nat, nat), y: (nat, nat, nat)) {
    x.0 < y.0 || (x.0 == y.0 && (x.1 < y.1 || (x.1 == y.1 && x.2 < y.2)))
  }

  ghost function TriplesAt(a: nat, at: seq<(nat, nat)>): (triples: seq<(nat, nat, nat)>)
    ensures |triples| == |at| && forall r :: 0 <= r < |at| ==> triples[r] == (a, at[r].0, at[r].1)
  {
    seq(|at|, r requires 0 <= r < |at| => (a, at[r].0, at[r].1))
  }

  lemma TripleThere(a: nat, at: seq<(nat, nat)>, t: nat, k: nat)
    requires (t, k) in at
    ensures (a, t, k) in TriplesAt(a, at)
  {
    var r :| 0 <= r < |at| && at[r] == (t, k);
    assert TriplesAt(a, at)[r] == (a, t, k);
  }

  lemma OneMoreAgent(agents: seq<(Yaml, Yaml)>, entries: seq<Entry>, at: seq<(nat, nat, nat)>,
                     more: seq<Entry>, pairs: seq<(nat, nat)>)
    requires agents != [] && ListsAgents(agents[..|agents| - 1], entries, at)
    requires var (name, config) := agents[|agents| - 1];
      && name.Text? && IsSole(config, "tools") && Sole(config).Mapping?
      && ListsTools(name.text, Sole(config).fields, more, pairs)
    ensures ListsAgents(agents, entries + more, at + TriplesAt(|agents| - 1, pairs))
  {
    var last := |agents| - 1;
    var added := TriplesAt(last, pairs);
    var all, lines := at + added, entries + more;
    forall r | 0 <= r < |all| ensures AgentHolds(agents, lines[r], all[r]) {
      if r < |at| {
        EarlierAgentHolds(agents, entries[r], at[r]);
      }
    }
    forall a: nat, t: nat, k: nat | InAgents(agents, a, t, k) ensures (a, t, k) in all {
      AgentThere(agents, at, pairs, a, t, k);
    }
    TriplesInOrder(agents, entries, at, pairs);
  }

  lemma EarlierAgentHolds(agents: seq<(Yaml, Yaml)>, entry: Entry, x: (nat, nat, nat))
    requires agents != [] && AgentHolds(agents[..|agents| - 1], entry, x)
    ensures AgentHolds(agents, entry, x) && x.0 < |agents| - 1
  {
  }

  lemma AgentThere(agents: seq<(Yaml, Yaml)>, at: seq<(nat, nat, nat)>, pairs: seq<(nat, nat)>, a: nat, t: nat, k: nat)
    requires agents != [] && InAgents(agents, a, t, k)
    requires InAgents(agents[..|agents| - 1], a, t, k) ==> (a, t, k) in at
    requires a == |agents| - 1 && InTools(Sole(agents[a].1).fields, t, k) ==> (t, k) in pairs
    ensures (a, t, k) in at + TriplesAt(|agents| - 1, pairs)
  {
    if a == |agents| - 1 {
      TripleThere(a, pairs, t, k);
    }
  }

  lemma TriplesInOrder(agents: seq<(Yaml, Yaml)>, entries: seq<Entry>, at: seq<(nat, nat, nat)>, pairs: seq<(nat, nat)>)
    requires agents != [] && |entries| == |at|
    requires forall r :: 0 <= r < |at| ==> AgentHolds(agents[..|agents| - 1], entries[r], at[r])
    requires forall r, s :: 0 <= r < s < |at| ==> TripleBefore(at[r], at[s])
    requires forall r, s :: 0 <= r < s < |pairs| ==>
      pairs[r].0 < pairs[s].0 || (pairs[r].0 == pairs[s].0 && pairs[r].1 < pairs[s].1)
    ensures var all := at + TriplesAt(|agents| - 1, pairs);
      forall r, s :: 0 <= r < s < |all| ==> TripleBefore(all[r], all[s])
  {
    var added := TriplesAt(|agents| - 1, pairs);
    var all := at + added;
    forall r, s | 0 <= r < s < |all| ensures TripleBefore(all[r], all[s]) {
      if r < |at| && s >= |at| {
        EarlierAgentHolds(agents, entries[r], at[r]);
        assert all[s] == added[s - |at|];
      } else if r >= |at| {
        assert all[r] == added[r - |at|] && all[s] == added[s - |at|];
      }
    }
  }

  lemma {:induction false} AgentPlaces(agents: seq<(Yaml, Yaml)>) returns (at: seq<(nat, nat, nat)>)
    requires AgentEntries(agents).Some? && DistinctAgents(agents)
    ensures ListsAgents(agents, AgentEntries(agents).value, at)
    decreases |agents|
  {
    if agents == [] {
      at := [];
    } else {
      var init := agents[..|agents| - 1];
      var (name, config) := agents[|agents| - 1];
      at := AgentPlaces(init);
      OnlyFieldIsSole(config, "tools");
      var pairs := ToolPlaces(name.text, Sole(config).fields);
      OneMoreAgent(agents, AgentEntries(init).value, at, ToolEntries(name.text, Sole(config).fields).value, pairs);
      at := at + TriplesAt(|agents| - 1, pairs);
    }
  }

  // ----- the whole document -----

  /** The entry is the raw rule at this place, in its scope. */
  predicate PlaceHolds(fields: seq<(Yaml, Yaml)>, entry: Entry, p: Place) {
    InDocument(fields, p) && entry == Entry(ScopeAt(fields, p), ItemAt(fields, p))
  }

  /** `places` are the places of all rules of the document, in order, and `entries` what stands there. */
  ghost predicate ListsDocument(fields: seq<(Yaml, Yaml)>, entries: seq<Entry>, places: seq<Place>) {
    && |entries| == |places|
    && (forall r :: 0 <= r < |places| ==> PlaceHolds(fields, entries[r], places[r]))
    && (forall r, s :: 0 <= r < s < |places| ==> Before(places[r], places[s]))
    && (forall p: Place :: InDocument(fields, p) ==> p in places)
  }

  /** The same for the last section alone. */
  ghost predicate ListsLastSection(fields: seq<(Yaml, Yaml)>, entries: seq<Entry>, places: seq<Place>) {
    && |entries| == |places|
    && (forall r :: 0 <= r < |places| ==> PlaceHolds(fields, entries[r], places[r]) && places[r].section == |fields| - 1)
    && (forall r, s :: 0 <= r < s < |places| ==> Before(places[r], places[s]))
    && (forall p: Place :: InDocument(fields, p) && p.section == |fields| - 1 ==> p in places)
  }

  lemma EarlierPlaceHolds(fields: seq<(Yaml, Yaml)>, entry: Entry, p: Place)
    requires fields != [] && PlaceHolds(fields[..|fields| - 1], entry, p)
    ensures PlaceHolds(fields, entry, p) && p.section < |fields| - 1
  {
  }

  lemma OneMoreSection(fields: seq<(Yaml, Yaml)>, entries: seq<Entry>, places: seq<Place>,
                       more: seq<Entry>, added: seq<Place>)
    requires fields != [] && ListsDocument(fields[..|fields| - 1], entries, places)
    requires ListsLastSection(fields, more, added)
    ensures ListsDocument(fields, entries + more, places + added)
  {
    var all, lines := places + added, entries + more;
    forall r | 0 <= r < |all| ensures PlaceHolds(fields, lines[r], all[r]) {
      if r < |places| {
        EarlierPlaceHolds(fields, entries[r], places[r]);
      }
    }
    forall r, s | 0 <= r < s < |all| ensures Before(all[r], all[s]) {
      if r < |places| && s >= |places| {
        EarlierPlaceHolds(fields, entries[r], places[r]);
        assert all[s] == added[s - |places|];
      } else if r >= |places| {
        assert all[r] == added[r - |places|] && all[s] == added[s - |places|];
      }
    }
    forall p: Place | InDocument(fields, p) ensures p in all {
      if p.section < |fields| - 1 {
        assert InDocument(fields[..|fields| - 1], p);
      }
    }
  }

  lemma RulesSection(fields: seq<(Yaml, Yaml)>) returns (places: seq<Place>)
    requires fields != [] && IsKey(fields[|fields| - 1].0, "rules") && fields[|fields| - 1].1.Sequence?
    ensures ListsLastSection(fields, RuleEntries(fields[|fields| - 1].1, map[]).value, places)
  {
    var last := |fields| - 1;
    places := seq(|fields[last].1.items|, k requires 0 <= k < |fields[last].1.items| => TopLevel(last, k));
    forall p: Place | InDocument(fields, p) && p.section == last ensures p in places {
      assert p.TopLevel? by {
        assert |"rules"| == 5 && |"agents"| == 6;
      }
      assert places[p.item] == p;
    }
  }

  ghost function NestedAt(section: nat, at: seq<(nat, nat, nat)>): (places: seq<Place>)
    ensures |places| == |at|
    ensures forall r :: 0 <= r < |at| ==> places[r] == Nested(section, at[r].0, at[r].1, at[r].2)
  {
    seq(|at|, r requires 0 <= r < |at| => Nested(section, at[r].0, at[r].1, at[r].2))
  }

  lemma AgentsSection(fields: seq<(Yaml, Yaml)>) returns (places: seq<Place>)
    requires fields != [] && IsKey(fields[|fields| - 1].0, "agents") && fields[|fields| - 1].1.Mapping?
    requires AgentEntries(fields[|fields| - 1].1.fields).Some? && DistinctAgents(fields[|fields| - 1].1.fields)
    ensures ListsLastSection(fields, AgentEntries(fields[|fields| - 1].1.fields).value, places)
  {
    var last := |fields| - 1;
    var agents := fields[last].1.fields;
    var at := AgentPlaces(agents);
    places := NestedAt(last, at);
    forall r | 0 <= r < |places| ensures PlaceHolds(fields, AgentEntries(agents).value[r], places[r]) {
      assert AgentHolds(agents, AgentEntries(agents).value[r], at[r]);
    }
    forall r, s | 0 <= r < s < |places| ensures Before(places[r], places[s]) {
      assert TripleBefore(at[r], at[s]);
    }
    forall p: Place | InDocument(fields, p) && p.section == last ensures p in places {
      AgentPlaceThere(fields, at, p);
    }
  }

  lemma AgentPlaceThere(fields: seq<(Yaml, Yaml)>, at: seq<(nat, nat, nat)>, p: Place)
    requires InDocument(fields, p) && IsKey(fields[p.section].0, "agents")
    requires p.Nested? ==> (p.agent, p.tool, p.item) in at
    ensures p in NestedAt(p.section, at)
  {
    assert p.Nested? by {
      assert |"rules"| == 5 && |"agents"| == 6;
    }
    var r :| 0 <= r < |at| && at[r] == (p.agent, p.tool, p.item);
    assert NestedAt(p.section, at)[r] == p;
  }

  /** A section that is neither a rule list nor a list of agents has no rules. */
  lemma OtherSection(fields: seq<(Yaml, Yaml)>)
    requires fields != [] && (IsKey(fields[|fields| - 1].0, "version") || IsKey(fields[|fields| - 1].0, "global"))
    ensures ListsLastSection(fields, [], [])
  {
    assert |"version"| == 7 && |"rules"| == 5 && |"agents"| == 6 && |"global"| == 6 && "agents"[0] != "global"[0];
  }

  lemma {:induction false} OutlinePlaces(fields: seq<(Yaml, Yaml)>) returns (places: seq<Place>)
    requires OutlineOf(fields).Some? && DistinctSections(fields)
    ensures ListsDocument(fields, OutlineOf(fields).value.entries, places)
    decreases |fields|
  {
    if fields == [] {
      places := [];
    } else {
      var init, entries := fields[..|fields| - 1], OutlineOf(fields).value.entries;
      var earlier := OutlineOf(init).value.entries;
      places := OutlinePlaces(init);
      var more, added := SectionPlaces(fields);
      OneMoreSection(fields, earlier, places, more, added);
      assert entries == earlier + more;
      places := places + added;
    }
  }

  /** What the last section adds. */
  lemma SectionPlaces(fields: seq<(Yaml, Yaml)>) returns (more: seq<Entry>, added: seq<Place>)
    requires fields != [] && OutlineOf(fields).Some? && DistinctSections(fields)
    ensures ListsLastSection(fields, more, added)
    ensures OutlineOf(fields).value.entries == OutlineOf(fields[..|fields| - 1]).value.entries + more
  {
    var (key, value) := fields[|fields| - 1];
    if IsKey(key, "version") || IsKey(key, "global") {
      OtherSection(fields);
      more, added := [], [];
      assert OutlineOf(fields[..|fields| - 1]).value.entries + [] == OutlineOf(fields[..|fields| - 1]).value.entries;
    } else if IsKey(key, "rules") {
      more := RuleEntries(value, map[]).value;
      added := RulesSection(fields);
    } else {
      more := AgentEntries(value.fields).value;
      added := AgentsSection(fields);
    }
  }
}
