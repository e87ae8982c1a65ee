/**
 Parsing a raw condition tree under bounds on its depth and its number of
 nodes, with one counter that is threaded through all siblings.
 */
module ConditionSpec {
  import opened Common
  import opened PatternParser
  import opened Conditions

  const MAX_CONDITION_DEPTH := 32
  const MAX_CONDITION_NODES := 128

  /** The parsed tree, if the tree is accepted, and the counter afterwards. */
  datatype Parsed = Parsed(condition: Option<Condition>, nodes: nat)

  datatype ParsedList = ParsedList(children: Option<seq<Condition>>, nodes: nat)

  predicate IsOperator(y: Yaml) {
    y.Text? && (y.text == "all" || y.text == "any" || y.text == "not")
  }

  /** The first boolean operator among the keys. */
  function Operator(fields: seq<(Yaml, Yaml)>): (r: Option<string>)
    ensures r.None? <==> forall i :: 0 <= i < |fields| ==> !IsOperator(fields[i].0)
    ensures r.Some? ==> r.value in ["all", "any", "not"]
  {
    if fields == [] then None
    else if IsOperator(fields[0].0) then Some(fields[0].0.text)
    else Operator(fields[1..])
  }

  function ParseWindow(value: Yaml): Option<TimeWindow> {
    if !value.Mapping? || |value.fields| != 2 then None
    else
      var first, second := value.fields[0], value.fields[1];
      if !first.1.Text? || !second.1.Text? || first.1.instant.None? || second.1.instant.None? then None
      else
        var a, b := first.1.instant.value, second.1.instant.value;
        if IsKey(first.0, "start") && IsKey(second.0, "end") then if b > a then Some(TimeWindow(a, b)) else None
        else if IsKey(first.0, "end") && IsKey(second.0, "start") then if a > b then Some(TimeWindow(b, a)) else None
        else None
  }

  predicate IsPlainText(value: Yaml) {
    value.Text? && !IsAmbiguousScalar(value.text)
  }

  /** One field of a leaf condition, added to the fields read before it. */
  function ParseLeaf(field: (Yaml, Yaml), leaves: Condition): (r: Option<Condition>)
    requires leaves.Leaves?
    ensures r.Some? ==> r.value.Leaves?
  {
    var (key, value) := field;
    if IsKey(key, "args_match") then
      if IsPlainText(value) && Decode(value.text).Some? then Some(leaves.(argsMatch := Some(value.text))) else None
    else if IsKey(key, "path_pattern") then
      if IsPlainText(value) then Some(leaves.(pathPattern := Some(value.text))) else None
    else if IsKey(key, "time_window") then
      var window := ParseWindow(value);
      if window.Some? then Some(leaves.(timeWindow := window)) else None
    else None
  }

  function ParseLeaves(fields: seq<(Yaml, Yaml)>, leaves: Condition): (r: Option<Condition>)
    requires leaves.Leaves?
    ensures r.Some? ==> r.value.Leaves?
  {
    if fields == [] then Some(leaves)
    else
      var next := ParseLeaf(fields[0], leaves);
      if next.None? then None else ParseLeaves(fields[1..], next.value)
  }

  function ParseCondition(y: Yaml, depth: nat, nodes: nat): Parsed
    decreases y, 1
  {
    if depth > MAX_CONDITION_DEPTH then Parsed(None, nodes)
    else if nodes + 1 > MAX_CONDITION_NODES || !y.Mapping? then Parsed(None, nodes + 1)
    else
      var operator := Operator(y.fields);
      if operator.None? then Parsed(ParseLeaves(y.fields, NO_CONDITION), nodes + 1)
      else if |y.fields| != 1 then Parsed(None, nodes + 1)
      else
        var value := y.fields[0].1;
        if operator.value == "not" then
          var child := ParseCondition(value, depth + 1, nodes + 1);
          Parsed(if child.condition.Some? then Some(Not(child.condition.value)) else None, child.nodes)
        else if !value.Sequence? then Parsed(None, nodes + 1)
        else
          var list := ParseChildren(value.items, depth + 1, nodes + 1);
          Parsed(
            if list.children.None? then None
            else if operator.value == "all" then Some(AllOf(list.children.value))
            else Some(AnyOf(list.children.value)),
            list.nodes)
  }

  function ParseChildren(items: seq<Yaml>, depth: nat, nodes: nat): ParsedList
    decreases items, 0
  {
    if items == [] then ParsedList(Some([]), nodes)
    else
      var first := ParseCondition(items[0], depth, nodes);
      if first.condition.None? then ParsedList(None, first.nodes)
      else
        var rest := ParseChildren(items[1..], depth, first.nodes);
        ParsedList(
          if rest.children.None? then None else Some([first.condition.value] + rest.children.value),
          rest.nodes)
  }

  // ----- which trees are accepted -----

  /** A tree built with one operator: the only field's key. */
  predicate IsTreeOf(y: Yaml, operator: string) {
    y.Mapping? && |y.fields| == 1 && IsKey(y.fields[0].0, operator)
  }

  predicate IsListTree(y: Yaml) {
    (IsTreeOf(y, "all") || IsTreeOf(y, "any")) && y.fields[0].1.Sequence?
  }

  /** The shape that the language prescribes, without any bound. */
  predicate WellShaped(y: Yaml) {
    if IsListTree(y) then forall i :: 0 <= i < |y.fields[0].1.items| ==> WellShaped(y.fields[0].1.items[i])
    else if IsTreeOf(y, "not") then WellShaped(y.fields[0].1)
    else y.Mapping? && Operator(y.fields).None? && ParseLeaves(y.fields, NO_CONDITION).Some?
  }

  function Depth(y: Yaml): nat
    decreases y, 1
  {
    if IsListTree(y) then 1 + DeepestOf(y.fields[0].1.items)
    else if IsTreeOf(y, "not") then 1 + Depth(y.fields[0].1)
    else 1
  }

  function DeepestOf(trees: seq<Yaml>): nat
    decreases trees, 0
  {
    if trees == [] then 0
    else
      var first, rest := Depth(trees[0]), DeepestOf(trees[1..]);
      if first > rest then first else rest
  }

  function Nodes(y: Yaml): nat
    decreases y, 1
  {
    if IsListTree(y) then 1 + NodesOf(y.fields[0].1.items)
    else if IsTreeOf(y, "not") then 1 + Nodes(y.fields[0].1)
    else 1
  }

  function NodesOf(trees: seq<Yaml>): nat
    decreases trees, 0
  {
    if trees == [] then 0 else Nodes(trees[0]) + NodesOf(trees[1..])
  }
}
