/** Policy calls, condition trees and their meaning, and the raw documents they are parsed from. */
module Conditions {
  import opened Common
  import opened Patterns
  import opened PatternParser
  import opened Glob

  datatype PolicyCall = PolicyCall(
    agent: Option<string>,
    tool: Option<string>,
    args: seq<string>,
    user: Option<string>,
    context: map<string, string>)

  datatype TimeWindow = TimeWindow(start: int, end: int)

  datatype Condition =
    | Leaves(argsMatch: Option<string>, pathPattern: Option<string>, timeWindow: Option<TimeWindow>)
    | AllOf(children: seq<Condition>)
    | AnyOf(children: seq<Condition>)
    | Not(child: Condition)

  const NO_CONDITION := Leaves(None, None, None)

  /** The arguments with a space between each two. */
  function Joined(args: seq<string>): string {
    if args == [] then ""
    else if |args| == 1 then args[0]
    else args[0] + " " + Joined(args[1..])
  }

  /** A pattern that does not parse matches nothing. */
  ghost predicate ArgsHold(pattern: string, call: PolicyCall) {
    Decode(pattern).Some? && Matches(Decode(pattern).value, Joined(call.args))
  }

  ghost predicate PathHolds(pattern: string, call: PolicyCall) {
    exists i :: 0 <= i < |call.args| && GlobMatches(pattern, call.args[i])
  }

  predicate WindowHolds(window: TimeWindow, now: int) {
    window.start <= now < window.end
  }

  /** What a condition tree says about a call at an instant. */
  ghost predicate Holds(c: Condition, call: PolicyCall, now: int) {
    match c
    case Leaves(argsMatch, pathPattern, timeWindow) =>
      && (argsMatch.Some? ==> ArgsHold(argsMatch.value, call))
      && (pathPattern.Some? ==> PathHolds(pathPattern.value, call))
      && (timeWindow.Some? ==> WindowHolds(timeWindow.value, now))
    case AllOf(children) => forall i :: 0 <= i < |children| ==> Holds(children[i], call, now)
    case AnyOf(children) => exists i :: 0 <= i < |children| && Holds(children[i], call, now)
    case Not(child) => !Holds(child, call, now)
  }

  /**
   A document as the YAML library delivers it. `instant` is the point in time
   that the library reads a text as, if the text is an RFC 3339 UTC timestamp.
   */
  datatype Yaml =
    | Text(text: string, instant: Option<int>)
    | Number(number: int)
    | OtherScalar
    | Sequence(items: seq<Yaml>)
    | Mapping(fields: seq<(Yaml, Yaml)>)

  predicate IsKey(y: Yaml, name: string) {
    y.Text? && y.text == name
  }

  function LowerCase(s: string): string {
    seq(|s|, i requires 0 <= i < |s| => if 'A' <= s[i] <= 'Z' then (s[i] as int + 32) as char else s[i])
  }

  /** Texts that YAML dialects read as booleans, nulls or numbers. */
  predicate IsAmbiguousScalar(s: string) {
    || LowerCase(s) in {"y", "yes", "n", "no", "true", "false", "on", "off", "null", "~"}
    || (s != ""
        && ('0' <= s[0] <= '9' || s[0] == '+' || s[0] == '-')
        && forall i :: 0 <= i < |s| ==> '0' <= s[i] <= '9' || s[i] in "_:.+-eExXoObB")
  }
}
