/** The condition parser with its running node counter, and the evaluator, as the runtimes execute them. */
module ConditionParsers {
  import opened Common
  import opened PatternParser
  import opened Glob
  import opened Matcher
  import opened Conditions
  import ConditionSpec

  class ConditionParser {
    var nodes: nat

    constructor ()
      ensures nodes == 0
    {
      nodes := 0;
    }

    method ParseCondition(y: Yaml, depth: nat) returns (r: Option<Condition>)
      modifies this
      ensures ConditionSpec.Parsed(r, nodes) == ConditionSpec.ParseCondition(y, depth, old(nodes))
      decreases y, 1
    {
      if depth > ConditionSpec.MAX_CONDITION_DEPTH {
        return None;
      }
      nodes := nodes + 1;
      if nodes > ConditionSpec.MAX_CONDITION_NODES || !y.Mapping? {
        return None;
      }
      var operator := ConditionSpec.Operator(y.fields);
      if operator.Some? {
        if |y.fields| != 1 {
          return None;
        }
        var value := y.fields[0].1;
        if operator.value == "not" {
          var child := ParseCondition(value, depth + 1);
          return if child.Some? then Some(Not(child.value)) else None;
        }
        if !value.Sequence? {
          return None;
        }
        var children := ParseChildren(value.items, depth + 1);
        if children.None? {
          return None;
        }
        return if operator.value == "all" then Some(AllOf(children.value)) else Some(AnyOf(children.value));
      }
      r := ParseLeaves(y.fields);
    }

    method ParseChildren(items: seq<Yaml>, depth: nat) returns (r: Option<seq<Condition>>)
      modifies this
      ensures ConditionSpec.ParsedList(r, nodes) == ConditionSpec.ParseChildren(items, depth, old(nodes))
      decreases items, 0
    {
      var children: seq<Condition> := [];
      assert items[0..] == items;
      ghost var all := ConditionSpec.ParseChildren(items, depth, nodes);
      assert all.children.Some? ==> children + all.children.value == all.children.value;
      for i := 0 to |items|
        invariant ConditionSpec.ParseChildren(items, depth, old(nodes))
               == After(children, ConditionSpec.ParseChildren(items[i..], depth, nodes))
      {
        assert items[i..][1..] == items[i + 1..];
        var child := ParseCondition(items[i], depth);
        if child.None? {
          return None;
        }
        ghost var rest := ConditionSpec.ParseChildren(items[i + 1..], depth, nodes);
        if rest.children.Some? {
          assert children + ([child.value] + rest.children.value) == children + [child.value] + rest.children.value;
        }
        children := children + [child.value];
      }
      assert children + [] == children;
      r := Some(children);
    }

    method ParseLeaves(fields: seq<(Yaml, Yaml)>) returns (r: Option<Condition>)
      ensures r == ConditionSpec.ParseLeaves(fields, NO_CONDITION)
    {
      var leaves := NO_CONDITION;
      assert fields[0..] == fields;
      for i := 0 to |fields|
        invariant leaves.Leaves?
        invariant ConditionSpec.ParseLeaves(fields, NO_CONDITION) == ConditionSpec.ParseLeaves(fields[i..], leaves)
      {
        assert fields[i..][1..] == fields[i + 1..];
        var next := ConditionSpec.ParseLeaf(fields[i], leaves);
        if next.None? {
          return None;
        }
        leaves := next.value;
      }
      r := Some(leaves);
    }
  }

  /** The children parsed before the rest of the list. */
  ghost function After(children: seq<Condition>, rest: ConditionSpec.ParsedList): ConditionSpec.ParsedList {
    ConditionSpec.ParsedList(
      if rest.children.None? then None else Some(children + rest.children.value),
      rest.nodes)
  }

  /** A rule without a condition gets the one that always holds; any other is parsed with a fresh counter. */
  method ParseConditions(condition: Option<Yaml>) returns (r: Option<Condition>)
    ensures r == if condition.None? then Some(NO_CONDITION)
                 else ConditionSpec.ParseCondition(condition.value, 1, 0).condition
  {
    if condition.None? {
      return Some(NO_CONDITION);
    }
    var parser := new ConditionParser();
    r := parser.ParseCondition(condition.value, 1);
  }

  method ArgsMatch(pattern: string, call: PolicyCall) returns (result: bool)
    ensures result <==> ArgsHold(pattern, call)
  {
    var parsed := ParseRust(pattern);
    if parsed.None? {
      return false;
    }
    result := ArgsMatchRust(parsed.value, Joined(call.args));
  }

  method AnyPathMatches(pattern: string, call: PolicyCall) returns (result: bool)
    ensures result <==> PathHolds(pattern, call)
  {
    for i := 0 to |call.args|
      invariant forall k :: 0 <= k < i ==> !GlobMatches(pattern, call.args[k])
    {
      var matches := PathMatches(pattern, call.args[i]);
      if matches {
        return true;
      }
    }
    return false;
  }

  method Evaluate(c: Condition, call: PolicyCall, now: int) returns (result: bool)
    ensures result <==> Holds(c, call, now)
    decreases c
  {
    match c
    case Leaves(argsMatch, pathPattern, timeWindow) =>
      result := true;
      if argsMatch.Some? {
        result := ArgsMatch(argsMatch.value, call);
      }
      if result && pathPattern.Some? {
        result := AnyPathMatches(pathPattern.value, call);
      }
      if result && timeWindow.Some? {
        result := WindowHolds(timeWindow.value, now);
      }
    case AllOf(children) =>
      for i := 0 to |children|
        invariant forall k :: 0 <= k < i ==> Holds(children[k], call, now)
      {
        var holds := Evaluate(children[i], call, now);
        if !holds {
          return false;
        }
      }
      result := true;
    case AnyOf(children) =>
      for i := 0 to |children|
        invariant forall k :: 0 <= k < i ==> !Holds(children[k], call, now)
      {
        var holds := Evaluate(children[i], call, now);
        if holds {
          return true;
        }
      }
      result := false;
    case Not(child) =>
      var holds := Evaluate(child, call, now);
      result := !holds;
  }
}
