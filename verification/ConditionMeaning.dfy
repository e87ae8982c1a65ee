/** What parsing a condition accepts and what it preserves. */
module ConditionMeaning {
  import opened Common
  import opened PatternParser
  import opened Conditions
  import opened ConditionSpec

  lemma OperatorOfOne(y: Yaml)
    requires y.Mapping? && |y.fields| == 1
    ensures Operator(y.fields) == if IsOperator(y.fields[0].0) then Some(y.fields[0].0.text) else None
  {
    assert y.fields[1..] == [];
  }

  /** Acceptance from a point on, with what is left of the two bounds. */
  ghost predicate AcceptedWithinBounds(y: Yaml, depth: nat, nodes: nat) {
    var r := ParseCondition(y, depth, nodes);
    && (r.condition.Some? <==>
          WellShaped(y) && depth + Depth(y) <= MAX_CONDITION_DEPTH + 1 && nodes + Nodes(y) <= MAX_CONDITION_NODES)
    && (r.condition.Some? ==> r.nodes == nodes + Nodes(y))
  }

  /** A tree is accepted from here exactly if it has the prescribed shape and fits in what is left of the bounds. */
  lemma {:induction false} AcceptedExactly(y: Yaml, depth: nat, nodes: nat)
    ensures AcceptedWithinBounds(y, depth, nodes)
    decreases y, 2
  {
    if IsListTree(y) {
      ListTreeAcceptedExactly(y, depth, nodes);
    } else if IsTreeOf(y, "not") {
      NegationAcceptedExactly(y, depth, nodes);
    } else {
      LeavesAcceptedExactly(y, depth, nodes);
    }
  }

  lemma {:induction false} ListTreeAcceptedExactly(y: Yaml, depth: nat, nodes: nat)
    requires IsListTree(y)
    ensures AcceptedWithinBounds(y, depth, nodes)
    decreases y, 1
  {
    OperatorOfOne(y);
    ListAcceptedExactly(y.fields[0].1.items, depth + 1, nodes + 1);
  }

  lemma {:induction false} NegationAcceptedExactly(y: Yaml, depth: nat, nodes: nat)
    requires IsTreeOf(y, "not")
    ensures AcceptedWithinBounds(y, depth, nodes)
    decreases y, 1
  {
    OperatorOfOne(y);
    AcceptedExactly(y.fields[0].1, depth + 1, nodes + 1);
  }

  lemma LeavesAcceptedExactly(y: Yaml, depth: nat, nodes: nat)
    requires !IsListTree(y) && !IsTreeOf(y, "not")
    ensures AcceptedWithinBounds(y, depth, nodes)
  {
    if y.Mapping? && |y.fields| == 1 {
      OperatorOfOne(y);
    }
  }

  lemma {:induction false} ListAcceptedExactly(items: seq<Yaml>, depth: nat, nodes: nat)
    ensures var r := ParseChildren(items, depth, nodes);
      && (r.children.Some? <==>
            && (forall i :: 0 <= i < |items| ==> WellShaped(items[i]))
            && (items == [] || depth + DeepestOf(items) <= MAX_CONDITION_DEPTH + 1)
            && (items == [] || nodes + NodesOf(items) <= MAX_CONDITION_NODES))
      && (r.children.Some? ==> r.nodes == nodes + NodesOf(items))
    decreases items, 0
  {
    if items != [] {
      AcceptedExactly(items[0], depth, nodes);
      var first := ParseCondition(items[0], depth, nodes);
      if first.condition.Some? {
        ListAcceptedExactly(items[1..], depth, first.nodes);
        assert forall i :: 0 < i < |items| ==> items[i] == items[1..][i - 1];
      }
      assert items[1..] == [] ==> DeepestOf(items[1..]) == 0 && NodesOf(items[1..]) == 0;
    }
  }

  /** The whole parser: the prescribed shape, at most 32 levels and at most 128 nodes. */
  lemma ConditionAcceptedExactly(y: Yaml)
    ensures ParseCondition(y, 1, 0).condition.Some? <==>
      WellShaped(y) && Depth(y) <= MAX_CONDITION_DEPTH && Nodes(y) <= MAX_CONDITION_NODES
  {
    AcceptedExactly(y, 1, 0);
  }

  // ----- the meaning of the raw tree -----

  /** One leaf field, read directly; an unknown one never holds. */
  ghost predicate LeafHolds(field: (Yaml, Yaml), call: PolicyCall, now: int) {
    var (key, value) := field;
    if IsKey(key, "args_match") then value.Text? && ArgsHold(value.text, call)
    else if IsKey(key, "path_pattern") then value.Text? && PathHolds(value.text, call)
    else if IsKey(key, "time_window") then ParseWindow(value).Some? && WindowHolds(ParseWindow(value).value, now)
    else false
  }

  /** Python evaluates the raw tree itself, and never builds another one. */
  ghost predicate RawHolds(y: Yaml, call: PolicyCall, now: int) {
    if IsListTree(y) then
      if IsTreeOf(y, "all") then
        forall i :: 0 <= i < |y.fields[0].1.items| ==> RawHolds(y.fields[0].1.items[i], call, now)
      else
        exists i :: 0 <= i < |y.fields[0].1.items| && RawHolds(y.fields[0].1.items[i], call, now)
    else if IsTreeOf(y, "not") then !RawHolds(y.fields[0].1, call, now)
    else y.Mapping? && forall i :: 0 <= i < |y.fields| ==> LeafHolds(y.fields[i], call, now)
  }

  /** No mapping has a key twice; the YAML library refuses such documents. */
  predicate DistinctKeys(y: Yaml) {
    && (y.Mapping? ==>
          && (forall i, j :: 0 <= i < j < |y.fields| ==> y.fields[i].0.Text? ==> !IsKey(y.fields[j].0, y.fields[i].0.text))
          && (forall i :: 0 <= i < |y.fields| ==> DistinctKeys(y.fields[i].1)))
    && (y.Sequence? ==> forall i :: 0 <= i < |y.items| ==> DistinctKeys(y.items[i]))
  }

  /** None of the remaining fields has been read already. */
  predicate Unread(fields: seq<(Yaml, Yaml)>, leaves: Condition)
    requires leaves.Leaves?
  {
    forall i :: 0 <= i < |fields| ==>
      && (IsKey(fields[i].0, "args_match") ==> leaves.argsMatch.None?)
      && (IsKey(fields[i].0, "path_pattern") ==> leaves.pathPattern.None?)
      && (IsKey(fields[i].0, "time_window") ==> leaves.timeWindow.None?)
  }

  lemma {:induction false} LeavesMean(fields: seq<(Yaml, Yaml)>, leaves: Condition, call: PolicyCall, now: int)
    requires leaves.Leaves? && ParseLeaves(fields, leaves).Some? && Unread(fields, leaves)
    requires forall i, j :: 0 <= i < j < |fields| ==> fields[i].0.Text? ==> !IsKey(fields[j].0, fields[i].0.text)
    ensures Holds(ParseLeaves(fields, leaves).value, call, now) <==>
      Holds(leaves, call, now) && forall i :: 0 <= i < |fields| ==> LeafHolds(fields[i], call, now)
    decreases |fields|
  {
    if fields != [] {
      var next := ParseLeaf(fields[0], leaves).value;
      assert Holds(next, call, now) <==> Holds(leaves, call, now) && LeafHolds(fields[0], call, now);
      LeavesMean(fields[1..], next, call, now);
      assert forall i :: 0 < i < |fields| ==> fields[i] == fields[1..][i - 1];
    }
  }

  /** An accepted tree means what the raw tree means: the two runtimes decide alike. */
  lemma {:induction false} MeaningPreserved(y: Yaml, depth: nat, nodes: nat, call: PolicyCall, now: int)
    requires ParseCondition(y, depth, nodes).condition.Some? && DistinctKeys(y)
    ensures Holds(ParseCondition(y, depth, nodes).condition.value, call, now) <==> RawHolds(y, call, now)
    decreases y, 1
  {
    if |y.fields| == 1 {
      OperatorOfOne(y);
    }
    if IsListTree(y) {
      var items := y.fields[0].1.items;
      ListMeaningPreserved(items, depth + 1, nodes + 1, call, now);
    } else if IsTreeOf(y, "not") {
      MeaningPreserved(y.fields[0].1, depth + 1, nodes + 1, call, now);
    } else {
      LeavesMean(y.fields, NO_CONDITION, call, now);
    }
  }

  lemma {:induction false} ListMeaningPreserved(items: seq<Yaml>, depth: nat, nodes: nat, call: PolicyCall, now: int)
    requires ParseChildren(items, depth, nodes).children.Some?
    requires forall i :: 0 <= i < |items| ==> DistinctKeys(items[i])
    ensures var children := ParseChildren(items, depth, nodes).children.value;
      && |children| == |items|
      && forall i :: 0 <= i < |items| ==> (Holds(children[i], call, now) <==> RawHolds(items[i], call, now))
    decreases items, 0
  {
    if items != [] {
      MeaningPreserved(items[0], depth, nodes, call, now);
      ListMeaningPreserved(items[1..], depth, ParseCondition(items[0], depth, nodes).nodes, call, now);
    }
  }

  // ----- rendering a tree and parsing it again -----

  function Key(name: string): Yaml {
    Text(name, None)
  }

  /** A window's two instants, spelled in some way that the library reads back. */
  function RenderWindow(window: TimeWindow, spell: int -> string): Yaml {
    Mapping([
      (Key("start"), Text(spell(window.start), Some(window.start))),
      (Key("end"), Text(spell(window.end), Some(window.end)))])
  }

  /** The entries of a leaf mapping, one optional entry after the other. */
  function ArgsEntry(c: Condition): seq<(Yaml, Yaml)>
    requires c.Leaves?
  {
    if c.argsMatch.Some? then [(Key("args_match"), Text(c.argsMatch.value, None))] else []
  }

  function PathEntry(c: Condition): seq<(Yaml, Yaml)>
    requires c.Leaves?
  {
    if c.pathPattern.Some? then [(Key("path_pattern"), Text(c.pathPattern.value, None))] else []
  }

  function WindowEntry(c: Condition, spell: int -> string): seq<(Yaml, Yaml)>
    requires c.Leaves?
  {
    if c.timeWindow.Some? then [(Key("time_window"), RenderWindow(c.timeWindow.value, spell))] else []
  }

  function Render(c: Condition, spell: int -> string): Yaml {
    match c
    case Leaves(_, _, _) => Mapping(ArgsEntry(c) + PathEntry(c) + WindowEntry(c, spell))
    case AllOf(children) => Mapping([(Key("all"), Sequence(RenderAll(children, spell)))])
    case AnyOf(children) => Mapping([(Key("any"), Sequence(RenderAll(children, spell)))])
    case Not(child) => Mapping([(Key("not"), Render(child, spell))])
  }

  function RenderAll(children: seq<Condition>, spell: int -> string): seq<Yaml> {
    if children == [] then [] else [Render(children[0], spell)] + RenderAll(children[1..], spell)
  }

  /** Trees whose leaves can be written in a policy. */
  predicate Writable(c: Condition) {
    match c
    case Leaves(argsMatch, pathPattern, timeWindow) =>
      && (argsMatch.Some? ==> !IsAmbiguousScalar(argsMatch.value) && Decode(argsMatch.value).Some?)
      && (pathPattern.Some? ==> !IsAmbiguousScalar(pathPattern.value))
      && (timeWindow.Some? ==> timeWindow.value.start < timeWindow.value.end)
    case AllOf(children) => forall i :: 0 <= i < |children| ==> Writable(children[i])
    case AnyOf(children) => forall i :: 0 <= i < |children| ==> Writable(children[i])
    case Not(child) => Writable(child)
  }

  lemma ArgsEntryRead(c: Condition)
    requires c.Leaves? && Writable(c)
    ensures ParseLeaves(ArgsEntry(c), NO_CONDITION) == Some(Leaves(c.argsMatch, None, None))
  {
    ParseLeavesOne(ArgsEntry(c), NO_CONDITION);
  }

  lemma PathEntryRead(c: Condition)
    requires c.Leaves? && Writable(c)
    ensures ParseLeaves(PathEntry(c), Leaves(c.argsMatch, None, None)) == Some(Leaves(c.argsMatch, c.pathPattern, None))
  {
    ParseLeavesOne(PathEntry(c), Leaves(c.argsMatch, None, None));
  }

  lemma WindowEntryRead(c: Condition, spell: int -> string)
    requires c.Leaves? && Writable(c)
    ensures ParseLeaves(WindowEntry(c, spell), Leaves(c.argsMatch, c.pathPattern, None)) == Some(c)
  {
    ParseLeavesOne(WindowEntry(c, spell), Leaves(c.argsMatch, c.pathPattern, None));
  }

  /** A leaf mapping has more than one entry, none, or one whose key is no operator. */
  lemma LeavesHaveNoOperator(c: Condition, spell: int -> string)
    requires c.Leaves?
    ensures Operator(Render(c, spell).fields).None?
  {
    var fields := Render(c, spell).fields;
    forall i | 0 <= i < |fields| ensures !IsOperator(fields[i].0) {
    }
  }

  lemma LeavesRoundTrip(c: Condition, spell: int -> string)
    requires c.Leaves? && Writable(c)
    ensures Operator(Render(c, spell).fields).None?
    ensures ParseLeaves(Render(c, spell).fields, NO_CONDITION) == Some(c)
  {
    LeavesHaveNoOperator(c, spell);
    ParseLeavesConcat(ArgsEntry(c) + PathEntry(c), WindowEntry(c, spell), NO_CONDITION);
    ParseLeavesConcat(ArgsEntry(c), PathEntry(c), NO_CONDITION);
    ArgsEntryRead(c);
    PathEntryRead(c);
    WindowEntryRead(c, spell);
  }

  lemma ParseLeavesOne(fields: seq<(Yaml, Yaml)>, leaves: Condition)
    requires leaves.Leaves? && |fields| <= 1
    ensures ParseLeaves(fields, leaves) == if fields == [] then Some(leaves) else ParseLeaf(fields[0], leaves)
  {
  }

  lemma {:induction false} ParseLeavesConcat(a: seq<(Yaml, Yaml)>, b: seq<(Yaml, Yaml)>, leaves: Condition)
    requires leaves.Leaves?
    ensures ParseLeaves(a + b, leaves) ==
      if ParseLeaves(a, leaves).None? then None else ParseLeaves(b, ParseLeaves(a, leaves).value)
    decreases |a|
  {
    if a == [] {
      assert a + b == b;
    } else {
      assert (a + b)[1..] == a[1..] + b;
      var next := ParseLeaf(a[0], leaves);
      if next.Some? {
        ParseLeavesConcat(a[1..], b, next.value);
      }
    }
  }

  /** A rendered tree fits in what is left of the two bounds. */
  predicate Fitting(y: Yaml, depth: nat, nodes: nat) {
    depth + Depth(y) <= MAX_CONDITION_DEPTH + 1 && nodes + Nodes(y) <= MAX_CONDITION_NODES
  }

  /** Parsing a rendered tree gives the tree back, whenever it is within what is left of the bounds. */
  lemma {:induction false} RenderRoundTrip(c: Condition, spell: int -> string, depth: nat, nodes: nat)
    requires Writable(c) && Fitting(Render(c, spell), depth, nodes)
    ensures ParseCondition(Render(c, spell), depth, nodes) == Parsed(Some(c), nodes + Nodes(Render(c, spell)))
    decreases c, 1
  {
    match c
    case Leaves(_, _, _) =>
      LeavesRoundTrip(c, spell);
      LeavesAreNoTree(c, spell);
    case AllOf(children) =>
      ParseOfListTree("all", RenderAll(children, spell), depth, nodes);
      RenderAllRoundTrip(children, spell, depth + 1, nodes + 1);
    case AnyOf(children) =>
      ParseOfListTree("any", RenderAll(children, spell), depth, nodes);
      RenderAllRoundTrip(children, spell, depth + 1, nodes + 1);
    case Not(child) =>
      ParseOfNegation(Render(child, spell), depth, nodes);
      RenderRoundTrip(child, spell, depth + 1, nodes + 1);
  }

  lemma ParseOfListTree(operator: string, items: seq<Yaml>, depth: nat, nodes: nat)
    requires operator in ["all", "any"]
    requires Fitting(Mapping([(Key(operator), Sequence(items))]), depth, nodes)
    ensures var y := Mapping([(Key(operator), Sequence(items))]);
      var list := ParseChildren(items, depth + 1, nodes + 1);
      && Depth(y) == 1 + DeepestOf(items) && Nodes(y) == 1 + NodesOf(items)
      && (list.children.Some? ==>
            ParseCondition(y, depth, nodes)
            == Parsed(Some(if operator == "all" then AllOf(list.children.value) else AnyOf(list.children.value)), list.nodes))
  {
    OperatorOfOne(Mapping([(Key(operator), Sequence(items))]));
  }

  lemma ParseOfNegation(child: Yaml, depth: nat, nodes: nat)
    requires Fitting(Mapping([(Key("not"), child)]), depth, nodes)
    ensures var y := Mapping([(Key("not"), child)]);
      var parsed := ParseCondition(child, depth + 1, nodes + 1);
      && Depth(y) == 1 + Depth(child) && Nodes(y) == 1 + Nodes(child)
      && (parsed.condition.Some? ==> ParseCondition(y, depth, nodes) == Parsed(Some(Not(parsed.condition.value)), parsed.nodes))
  {
    OperatorOfOne(Mapping([(Key("not"), child)]));
  }

  lemma LeavesAreNoTree(c: Condition, spell: int -> string)
    requires c.Leaves? && Operator(Render(c, spell).fields).None?
    ensures Depth(Render(c, spell)) == 1 && Nodes(Render(c, spell)) == 1
  {
  }

  lemma {:induction false} RenderAllRoundTrip(children: seq<Condition>, spell: int -> string, depth: nat, nodes: nat)
    requires forall i :: 0 <= i < |children| ==> Writable(children[i])
    requires children == [] || depth + DeepestOf(RenderAll(children, spell)) <= MAX_CONDITION_DEPTH + 1
    requires nodes + NodesOf(RenderAll(children, spell)) <= MAX_CONDITION_NODES
    ensures ParseChildren(RenderAll(children, spell), depth, nodes)
         == ParsedList(Some(children), nodes + NodesOf(RenderAll(children, spell)))
    decreases children, 0
  {
    if children != [] {
      var items := RenderAll(children, spell);
      assert items[1..] == RenderAll(children[1..], spell);
      RenderRoundTrip(children[0], spell, depth, nodes);
      RenderAllRoundTrip(children[1..], spell, depth, nodes + Nodes(items[0]));
      assert [children[0]] + children[1..] == children;
    }
  }
}
