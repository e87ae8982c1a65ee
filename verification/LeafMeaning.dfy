/** What one leaf condition says, read off its fields. */
module LeafMeaning {
  import opened Common
  import opened PatternParser
  import opened Conditions
  import opened ConditionSpec
  import opened TargetFields
  import opened RuleFields

  /** The arguments of two lists are joined as each list is, with one space between. */
  lemma {:induction false} JoinedExactly(a: seq<string>, b: seq<string>, arg: string)
    ensures Joined([]) == ""
    ensures Joined([arg]) == arg
    ensures a != [] && b != [] ==> Joined(a + b) == Joined(a) + " " + Joined(b)
    decreases |a|
  {
    if a != [] && b != [] {
      assert (a + b)[1..] == a[1..] + b;
      if |a| > 1 {
        JoinedExactly(a[1..], b, arg);
      }
    }
  }

  /** Field `i` gives the start of the window, and the other one its end. */
  predicate GivesWindow(fields: seq<(Yaml, Yaml)>, i: nat, window: TimeWindow)
    requires |fields| == 2 && i < 2
  {
    && IsKey(fields[i].0, "start") && fields[i].1.Text? && fields[i].1.instant == Some(window.start)
    && IsKey(fields[1 - i].0, "end") && fields[1 - i].1.Text? && fields[1 - i].1.instant == Some(window.end)
  }

  /** A time window is accepted exactly if it is these two fields, in either order, with two instants in order. */
  lemma WindowAcceptedExactly(value: Yaml, window: TimeWindow)
    ensures ParseWindow(value) == Some(window) <==>
      && value.Mapping? && |value.fields| == 2
      && (GivesWindow(value.fields, 0, window) || GivesWindow(value.fields, 1, window))
      && window.start < window.end
  {
    assert |"start"| != |"end"|;
  }

  /** A window begins with its first instant, ends before its last one, and is made up of its two parts. */
  lemma WindowIsHalfOpen(start: int, middle: int, end: int, now: int)
    requires start <= middle <= end
    ensures WindowHolds(TimeWindow(start, end), now) <==>
      WindowHolds(TimeWindow(start, middle), now) || WindowHolds(TimeWindow(middle, end), now)
    ensures start < end ==> WindowHolds(TimeWindow(start, end), start)
    ensures !WindowHolds(TimeWindow(start, end), end)
    ensures !WindowHolds(TimeWindow(start, start), now)
  {
  }

  predicate LeafFieldOk(field: (Yaml, Yaml)) {
    || (IsKey(field.0, "args_match") && IsPlainText(field.1) && Decode(field.1.text).Some?)
    || (IsKey(field.0, "path_pattern") && IsPlainText(field.1))
    || (IsKey(field.0, "time_window") && ParseWindow(field.1).Some?)
  }

  function WindowOf(y: Option<Yaml>): Option<TimeWindow> {
    if y.Some? then ParseWindow(y.value) else None
  }

  /** Every field is read into its part of the condition. */
  ghost predicate LeavesInto(fields: seq<(Yaml, Yaml)>, leaves: Condition, r: Condition)
    requires leaves.Leaves?
  {
    && r.Leaves?
    && r.argsMatch == Or(TextOf(FieldValue(fields, "args_match")), leaves.argsMatch)
    && r.pathPattern == Or(TextOf(FieldValue(fields, "path_pattern")), leaves.pathPattern)
    && r.timeWindow == Or(WindowOf(FieldValue(fields, "time_window")), leaves.timeWindow)
  }

  lemma OneLeaf(field: (Yaml, Yaml), leaves: Condition)
    requires leaves.Leaves?
    ensures ParseLeaf(field, leaves).Some? <==> LeafFieldOk(field)
    ensures ParseLeaf(field, leaves).Some? ==> LeavesInto([field], leaves, ParseLeaf(field, leaves).value)
  {
    assert |"args_match"| == 10 && |"path_pattern"| == 12 && |"time_window"| == 11;
    assert [field][1..] == [];
  }

  lemma OneMoreLeaf(fields: seq<(Yaml, Yaml)>, leaves: Condition, next: Condition, r: Condition)
    requires fields != [] && DistinctFields(fields) && leaves.Leaves? && ParseLeaf(fields[0], leaves) == Some(next)
    requires LeavesInto(fields[1..], next, r)
    ensures LeavesInto(fields, leaves, r)
  {
    OneLeaf(fields[0], leaves);
    assert [fields[0]][1..] == [];
    if IsKey(fields[0].0, "args_match") {
      NoSecond(fields, "args_match");
    } else if IsKey(fields[0].0, "path_pattern") {
      NoSecond(fields, "path_pattern");
    } else {
      NoSecond(fields, "time_window");
    }
  }

  lemma {:induction false} LeavesRead(fields: seq<(Yaml, Yaml)>, leaves: Condition)
    requires leaves.Leaves? && DistinctFields(fields)
    ensures ParseLeaves(fields, leaves).Some? <==> forall i :: 0 <= i < |fields| ==> LeafFieldOk(fields[i])
    ensures ParseLeaves(fields, leaves).Some? ==> LeavesInto(fields, leaves, ParseLeaves(fields, leaves).value)
    decreases |fields|
  {
    if fields != [] {
      var rest, next := fields[1..], ParseLeaf(fields[0], leaves);
      assert forall i :: 0 <= i < |rest| ==> rest[i] == fields[i + 1];
      OneLeaf(fields[0], leaves);
      if next.Some? {
        LeavesRead(rest, next.value);
        if ParseLeaves(rest, next.value).Some? {
          OneMoreLeaf(fields, leaves, next.value, ParseLeaves(rest, next.value).value);
        }
      }
    }
  }

  /** A leaf condition is accepted exactly if all its fields are, and each part of it is what its field says. */
  lemma LeavesReadExactly(fields: seq<(Yaml, Yaml)>)
    requires DistinctFields(fields)
    ensures ParseLeaves(fields, NO_CONDITION).Some? <==> forall i :: 0 <= i < |fields| ==> LeafFieldOk(fields[i])
    ensures ParseLeaves(fields, NO_CONDITION).Some? ==>
      ParseLeaves(fields, NO_CONDITION).value ==
        Leaves(TextOf(FieldValue(fields, "args_match")), TextOf(FieldValue(fields, "path_pattern")),
               WindowOf(FieldValue(fields, "time_window")))
  {
    LeavesRead(fields, NO_CONDITION);
  }

  // ----- texts that are refused -----

  /** Whether a text is refused does not depend on the case of its letters. */
  lemma AmbiguityIgnoresCase(s: string, t: string)
    requires LowerCase(s) == LowerCase(t)
    ensures IsAmbiguousScalar(s) <==> IsAmbiguousScalar(t)
  {
    assert |s| == |t|;
    forall i | 0 <= i < |s| ensures NumberCharacter(s[i]) <==> NumberCharacter(t[i]) {
      assert LowerCase(s)[i] == LowerCase(t)[i];
    }
    assert s != "" ==> LowerCase(s)[0] == LowerCase(t)[0];
    NumberCharacters(s);
    NumberCharacters(t);
  }

  predicate NumberCharacter(c: char) {
    '0' <= c <= '9' || c in "_:.+-eExXoObB"
  }

  lemma NumberCharacters(s: string)
    ensures IsAmbiguousScalar(s) <==>
      || LowerCase(s) in {"y", "yes", "n", "no", "true", "false", "on", "off", "null", "~"}
      || (s != "" && ('0' <= s[0] <= '9' || s[0] in "+-") && forall i :: 0 <= i < |s| ==> NumberCharacter(s[i]))
  {
  }
}
