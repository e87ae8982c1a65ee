/** Which policy documents are accepted, read off the document. */
module DocumentAccepted {
  import opened Common
  import opened Conditions
  import opened PolicySpec
  import opened RuleFields
  import opened DocumentPlaces
  import opened DocumentRules

  /** One tool with its rules. */
  predicate ToolOk(tool: (Yaml, Yaml)) {
    tool.0.Text? && IsSole(tool.1, "rules") && Sole(tool.1).Sequence?
  }

  /** One agent with its tools. */
  predicate AgentOk(agent: (Yaml, Yaml)) {
    && agent.0.Text? && IsSole(agent.1, "tools") && Sole(agent.1).Mapping?
    && forall t :: 0 <= t < |Sole(agent.1).fields| ==> ToolOk(Sole(agent.1).fields[t])
  }

  predicate SectionOk(section: (Yaml, Yaml)) {
    || IsKey(section.0, "version")
    || (IsKey(section.0, "global") && section.1.Mapping?
        && forall i :: 0 <= i < |section.1.fields| ==> GlobalFieldOk(section.1.fields[i]))
    || (IsKey(section.0, "rules") && section.1.Sequence?)
    || (IsKey(section.0, "agents") && section.1.Mapping?
        && forall a :: 0 <= a < |section.1.fields| ==> AgentOk(section.1.fields[a]))
  }

  lemma {:induction false} ToolsAccepted(agent: string, tools: seq<(Yaml, Yaml)>)
    requires DistinctConfigs(tools)
    ensures ToolEntries(agent, tools).Some? <==> forall t :: 0 <= t < |tools| ==> ToolOk(tools[t])
    decreases |tools|
  {
    if tools != [] {
      var init := tools[..|tools| - 1];
      ToolsAccepted(agent, init);
      assert forall t :: 0 <= t < |init| ==> init[t] == tools[t];
      OnlyFieldIsSole(tools[|tools| - 1].1, "rules");
    }
  }

  lemma {:induction false} AgentsAccepted(agents: seq<(Yaml, Yaml)>)
    requires DistinctAgents(agents)
    ensures AgentEntries(agents).Some? <==> forall a :: 0 <= a < |agents| ==> AgentOk(agents[a])
    decreases |agents|
  {
    if agents != [] {
      var init := agents[..|agents| - 1];
      var (name, config) := agents[|agents| - 1];
      AgentsAccepted(init);
      assert forall a :: 0 <= a < |init| ==> init[a] == agents[a];
      OnlyFieldIsSole(config, "tools");
      if name.Text? && IsSole(config, "tools") && Sole(config).Mapping? {
        ToolsAccepted(name.text, Sole(config).fields);
      }
    }
  }

  lemma KeysDiffer(key: Yaml)
    ensures IsKey(key, "version") ==> !IsKey(key, "global") && !IsKey(key, "rules") && !IsKey(key, "agents")
    ensures IsKey(key, "global") ==> !IsKey(key, "rules") && !IsKey(key, "agents")
    ensures IsKey(key, "rules") ==> !IsKey(key, "agents")
  {
    assert |"version"| == 7 && |"rules"| == 5 && |"agents"| == 6 && |"global"| == 6 && "agents"[0] != "global"[0];
  }

  /** Whether the last section gives something. */
  predicate LastSectionRead(section: (Yaml, Yaml)) {
    var (key, value) := section;
    if IsKey(key, "version") then true
    else if IsKey(key, "global") then value.Mapping? && GlobalAction(value.fields).Some?
    else if IsKey(key, "rules") then value.Sequence?
    else IsKey(key, "agents") && value.Mapping? && AgentEntries(value.fields).Some?
  }

  lemma OneMoreSectionRead(fields: seq<(Yaml, Yaml)>)
    requires fields != []
    ensures OutlineOf(fields).Some? <==> OutlineOf(fields[..|fields| - 1]).Some? && LastSectionRead(fields[|fields| - 1])
  {
    var (key, value) := fields[|fields| - 1];
    var read := LastSectionRead(fields[|fields| - 1]);
    if IsKey(key, "version") {
      assert read;
    } else if IsKey(key, "global") {
      assert read <==> (if value.Mapping? then GlobalAction(value.fields) else None).Some?;
    } else if IsKey(key, "rules") {
      assert read <==> RuleEntries(value, map[]).Some?;
    } else {
      assert read <==> IsKey(key, "agents") && (if value.Mapping? then AgentEntries(value.fields) else None).Some?;
    }
  }

  lemma SectionRead(section: (Yaml, Yaml))
    requires IsKey(section.0, "agents") && section.1.Mapping? ==> DistinctAgents(section.1.fields)
    ensures LastSectionRead(section) <==> SectionOk(section)
  {
    KeysDiffer(section.0);
    if IsKey(section.0, "global") && section.1.Mapping? {
      GlobalKeys(section.1.fields);
    } else if IsKey(section.0, "agents") && section.1.Mapping? {
      AgentsAccepted(section.1.fields);
    }
  }

  lemma {:induction false} SectionsAccepted(fields: seq<(Yaml, Yaml)>)
    requires DistinctSections(fields)
    ensures OutlineOf(fields).Some? <==> forall i :: 0 <= i < |fields| ==> SectionOk(fields[i])
    decreases |fields|
  {
    if fields != [] {
      var init := fields[..|fields| - 1];
      assert forall i :: 0 <= i < |init| ==> init[i] == fields[i];
      SectionsAccepted(init);
      OneMoreSectionRead(fields);
      SectionRead(fields[|fields| - 1]);
    }
  }

  /** The raw rule at a place stands for some rule. */
  ghost predicate PlaceOk(fields: seq<(Yaml, Yaml)>, p: Place, allowRateLimit: bool) {
    InDocument(fields, p)
    && exists rule, limit :: StandsFor(ItemAt(fields, p), ScopeAt(fields, p), allowRateLimit, rule, limit)
  }

  /** No two rules of the document give the same id. */
  ghost predicate IdsDistinct(fields: seq<(Yaml, Yaml)>) {
    forall p: Place, q: Place :: InDocument(fields, p) && InDocument(fields, q) && p != q && IdOf(ItemAt(fields, p)).Some? ==>
      IdOf(ItemAt(fields, p)) != IdOf(ItemAt(fields, q))
  }

  lemma EntryAccepted(e: Entry, allowRateLimit: bool)
    requires DistinctRule(e.raw)
    ensures EntryOk(e, allowRateLimit) <==> exists rule, limit :: StandsFor(e.raw, e.enclosing, allowRateLimit, rule, limit)
    ensures EntryOk(e, allowRateLimit) ==> EntryId(e, allowRateLimit) == IdOf(e.raw)
  {
    RuleReadExactly(NOTHING, e, allowRateLimit);
    if e.raw.Mapping? {
      RuleReads(e.raw.fields, EMPTY_DRAFT, allowRateLimit);
    }
  }

  lemma RuleAcceptedAtPlace(fields: seq<(Yaml, Yaml)>, e: Entry, p: Place, allowRateLimit: bool)
    requires PlaceHolds(fields, e, p) && DistinctRule(e.raw)
    ensures EntryOk(e, allowRateLimit) <==> PlaceOk(fields, p, allowRateLimit)
    ensures EntryOk(e, allowRateLimit) ==> EntryId(e, allowRateLimit) == IdOf(ItemAt(fields, p))
  {
    EntryAccepted(e, allowRateLimit);
  }

  ghost predicate EntriesOk(entries: seq<Entry>, allowRateLimit: bool) {
    forall r :: 0 <= r < |entries| ==> EntryOk(entries[r], allowRateLimit)
  }

  ghost predicate PlacesOk(fields: seq<(Yaml, Yaml)>, allowRateLimit: bool) {
    forall p: Place :: InDocument(fields, p) ==> PlaceOk(fields, p, allowRateLimit)
  }

  lemma RulesAccepted(fields: seq<(Yaml, Yaml)>, entries: seq<Entry>, places: seq<Place>, allowRateLimit: bool)
    requires ListsDocument(fields, entries, places) && WellKeyed(fields)
    ensures EntriesOk(entries, allowRateLimit) <==> PlacesOk(fields, allowRateLimit)
  {
    forall r | 0 <= r < |entries| ensures EntryOk(entries[r], allowRateLimit) <==> PlaceOk(fields, places[r], allowRateLimit) {
      assert PlaceHolds(fields, entries[r], places[r]);
      RuleAcceptedAtPlace(fields, entries[r], places[r], allowRateLimit);
    }
    if EntriesOk(entries, allowRateLimit) {
      forall p: Place | InDocument(fields, p) ensures PlaceOk(fields, p, allowRateLimit) {
        var r :| 0 <= r < |places| && places[r] == p;
        assert EntryOk(entries[r], allowRateLimit);
      }
    }
    if PlacesOk(fields, allowRateLimit) {
      forall r | 0 <= r < |entries| ensures EntryOk(entries[r], allowRateLimit) {
        assert PlaceHolds(fields, entries[r], places[r]);
      }
    }
  }

  lemma IdAtPlace(fields: seq<(Yaml, Yaml)>, entries: seq<Entry>, places: seq<Place>, allowRateLimit: bool, r: nat)
    requires ListsDocument(fields, entries, places) && WellKeyed(fields) && EntriesOk(entries, allowRateLimit)
    requires r < |entries|
    ensures InDocument(fields, places[r]) && EntryId(entries[r], allowRateLimit) == IdOf(ItemAt(fields, places[r]))
  {
    assert PlaceHolds(fields, entries[r], places[r]);
    assert EntryOk(entries[r], allowRateLimit);
    RuleAcceptedAtPlace(fields, entries[r], places[r], allowRateLimit);
  }

  /** Different rules stand at different places. */
  lemma PlacesDiffer(fields: seq<(Yaml, Yaml)>, entries: seq<Entry>, places: seq<Place>, r: nat, s: nat)
    requires ListsDocument(fields, entries, places) && r < s < |places|
    ensures places[r] != places[s]
  {
    assert Before(places[r], places[s]);
  }

  lemma IdsDifferAtPlaces(fields: seq<(Yaml, Yaml)>, entries: seq<Entry>, places: seq<Place>, allowRateLimit: bool,
                          p: Place, q: Place)
    requires ListsDocument(fields, entries, places) && WellKeyed(fields) && EntriesOk(entries, allowRateLimit)
    requires DistinctIds(entries, allowRateLimit)
    requires InDocument(fields, p) && InDocument(fields, q) && p != q && IdOf(ItemAt(fields, p)).Some?
    ensures IdOf(ItemAt(fields, p)) != IdOf(ItemAt(fields, q))
  {
    var r :| 0 <= r < |places| && places[r] == p;
    var s :| 0 <= s < |places| && places[s] == q;
    IdAtPlace(fields, entries, places, allowRateLimit, r);
    IdAtPlace(fields, entries, places, allowRateLimit, s);
    assert r < s ==> EntryId(entries[r], allowRateLimit) != EntryId(entries[s], allowRateLimit);
    assert s < r && EntryId(entries[s], allowRateLimit).Some? ==>
      EntryId(entries[s], allowRateLimit) != EntryId(entries[r], allowRateLimit);
  }

  lemma IdsDifferInList(fields: seq<(Yaml, Yaml)>, entries: seq<Entry>, places: seq<Place>, allowRateLimit: bool,
                        r: nat, s: nat)
    requires ListsDocument(fields, entries, places) && WellKeyed(fields) && EntriesOk(entries, allowRateLimit)
    requires IdsDistinct(fields) && r < s < |entries| && EntryId(entries[r], allowRateLimit).Some?
    ensures EntryId(entries[r], allowRateLimit) != EntryId(entries[s], allowRateLimit)
  {
    IdAtPlace(fields, entries, places, allowRateLimit, r);
    IdAtPlace(fields, entries, places, allowRateLimit, s);
    PlacesDiffer(fields, entries, places, r, s);
  }

  lemma IdsAccepted(fields: seq<(Yaml, Yaml)>, entries: seq<Entry>, places: seq<Place>, allowRateLimit: bool)
    requires ListsDocument(fields, entries, places) && WellKeyed(fields) && EntriesOk(entries, allowRateLimit)
    ensures DistinctIds(entries, allowRateLimit) <==> IdsDistinct(fields)
  {
    if DistinctIds(entries, allowRateLimit) {
      forall p: Place, q: Place | InDocument(fields, p) && InDocument(fields, q) && p != q && IdOf(ItemAt(fields, p)).Some?
        ensures IdOf(ItemAt(fields, p)) != IdOf(ItemAt(fields, q))
      {
        IdsDifferAtPlaces(fields, entries, places, allowRateLimit, p, q);
      }
    }
    if IdsDistinct(fields) {
      forall r, s | 0 <= r < s < |entries| && EntryId(entries[r], allowRateLimit).Some?
        ensures EntryId(entries[r], allowRateLimit) != EntryId(entries[s], allowRateLimit)
      {
        IdsDifferInList(fields, entries, places, allowRateLimit, r, s);
      }
    }
  }

  /**
   A document is accepted as a policy of some version exactly if it declares that
   version, each of its sections has its form, each raw rule stands for some rule,
   and no id is given twice.
   */
  lemma DocumentAcceptedExactly(document: Yaml, version: int)
    requires document.Mapping? ==> WellKeyed(document.fields)
    ensures Parse(document, version).Some? <==>
      && DeclaredVersion(document) == Some(version)
      && (forall i :: 0 <= i < |document.fields| ==> SectionOk(document.fields[i]))
      && PlacesOk(document.fields, version == 2)
      && IdsDistinct(document.fields)
  {
    if DeclaredVersion(document) == Some(version) {
      var fields := document.fields;
      SectionsAccepted(fields);
      if OutlineOf(fields).Some? {
        var entries := OutlineOf(fields).value.entries;
        var places := OutlinePlaces(fields);
        EntriesAcceptedExactly(entries, version == 2);
        RulesAccepted(fields, entries, places, version == 2);
        if EntriesOk(entries, version == 2) {
          IdsAccepted(fields, entries, places, version == 2);
        }
      }
    }
  }

  /** The declared version is the number of the "version" section, if it is one of 64 bits. */
  lemma VersionExactly(document: Yaml, version: int)
    ensures DeclaredVersion(document) == Some(version) <==>
      && document.Mapping?
      && FieldValue(document.fields, "version") == Some(Number(version))
      && -0x8000_0000_0000_0000 <= version <= 0x7FFF_FFFF_FFFF_FFFF
  {
    if document.Mapping? {
      FirstVersionIsField(document.fields);
    }
  }

  lemma {:induction false} FirstVersionIsField(fields: seq<(Yaml, Yaml)>)
    ensures FirstVersion(fields) ==
      match FieldValue(fields, "version")
      case Some(Number(n)) =>
        if -0x8000_0000_0000_0000 <= n <= 0x7FFF_FFFF_FFFF_FFFF then Some(n) else None
      case _ => None
    decreases |fields|
  {
    if fields != [] {
      FirstVersionIsField(fields[1..]);
    }
  }
}
