/** Which attributes a rule's own target asks for, read off the raw target. */
module TargetFields {
  import opened Common
  import opened Conditions
  import opened ConditionSpec
  import opened Resolution
  import opened PolicySpec

  /** No text key occurs twice; the YAML library refuses such mappings. */
  predicate DistinctFields(fields: seq<(Yaml, Yaml)>) {
    forall i, j :: 0 <= i < j < |fields| && fields[i].0.Text? ==> !IsKey(fields[j].0, fields[i].0.text)
  }

  predicate DistinctContext(fields: seq<(Yaml, Yaml)>) {
    forall i :: 0 <= i < |fields| && fields[i].1.Mapping? ==> DistinctFields(fields[i].1.fields)
  }

  /** One field of a context mapping asks for an attribute with its prefix. */
  predicate ContextAsks(field: (Yaml, Yaml), key: string, value: string) {
    && field.0.Text? && key == "context." + field.0.text
    && field.1.Text? && value == field.1.text
  }

  /** One field of a target asks for `key` with this value. */
  predicate FieldAsks(field: (Yaml, Yaml), key: string, value: string) {
    || (field.0.Text? && field.0.text in {"agent", "tool", "user"} && key == field.0.text
        && field.1.Text? && value == field.1.text)
    || (IsKey(field.0, "context") && field.1.Mapping?
        && exists j :: 0 <= j < |field.1.fields| && ContextAsks(field.1.fields[j], key, value))
  }

  predicate Asks(fields: seq<(Yaml, Yaml)>, key: string, value: string) {
    exists i :: 0 <= i < |fields| && FieldAsks(fields[i], key, value)
  }

  predicate ContextFieldOk(field: (Yaml, Yaml)) {
    field.0.Text? && IsPlainText(field.1)
  }

  predicate TargetFieldOk(field: (Yaml, Yaml)) {
    || (field.0.Text? && field.0.text in {"agent", "tool", "user"} && IsPlainText(field.1))
    || (IsKey(field.0, "context") && field.1.Mapping?
        && forall j :: 0 <= j < |field.1.fields| ==> ContextFieldOk(field.1.fields[j]))
  }

  predicate Has(m: map<string, string>, key: string, value: string) {
    key in m && m[key] == value
  }

  lemma PrefixedApart(a: string, b: string)
    ensures "context." + a == "context." + b ==> a == b
    ensures "context." + a !in {"agent", "tool", "user"}
  {
    assert a == ("context." + a)[8..] && b == ("context." + b)[8..];
    assert ("context." + a)[0] == 'c';
  }

  // ----- the context -----

  lemma {:induction false} ContextReads(fields: seq<(Yaml, Yaml)>, parsed: map<string, string>)
    ensures ParseContext(fields, parsed).Some? <==> forall j :: 0 <= j < |fields| ==> ContextFieldOk(fields[j])
    ensures ParseContext(fields, parsed).Some? && DistinctFields(fields) ==>
      forall key: string, value: string ::
        Has(ParseContext(fields, parsed).value, key, value) <==>
          (exists j :: 0 <= j < |fields| && ContextAsks(fields[j], key, value))
          || (Has(parsed, key, value) && forall j :: 0 <= j < |fields| ==> fields[j].0.Text? ==> key != "context." + fields[j].0.text)
    decreases |fields|
  {
    if fields != [] {
      var field, rest := fields[0], fields[1..];
      if ContextFieldOk(field) {
        var name := "context." + field.0.text;
        ContextReads(rest, parsed[name := field.1.text]);
        assert forall j :: 0 <= j < |rest| ==> rest[j] == fields[j + 1];
        if ParseContext(fields, parsed).Some? && DistinctFields(fields) {
          forall key: string, value: string
            ensures Has(ParseContext(fields, parsed).value, key, value) <==>
              (exists j :: 0 <= j < |fields| && ContextAsks(fields[j], key, value))
              || (Has(parsed, key, value) && forall j :: 0 <= j < |fields| ==> fields[j].0.Text? ==> key != "context." + fields[j].0.text)
          {
            ContextStep(fields, parsed, key, value);
          }
        }
      }
    }
  }

  lemma ContextStep(fields: seq<(Yaml, Yaml)>, parsed: map<string, string>, key: string, value: string)
    requires fields != [] && ContextFieldOk(fields[0]) && DistinctFields(fields)
    requires forall j :: 0 <= j < |fields| ==> ContextFieldOk(fields[j])
    ensures
      var rest, name := fields[1..], "context." + fields[0].0.text;
      var next := parsed[name := fields[0].1.text];
      ((exists j :: 0 <= j < |rest| && ContextAsks(rest[j], key, value))
       || (Has(next, key, value) && forall j :: 0 <= j < |rest| ==> rest[j].0.Text? ==> key != "context." + rest[j].0.text))
      <==>
      ((exists j :: 0 <= j < |fields| && ContextAsks(fields[j], key, value))
       || (Has(parsed, key, value) && forall j :: 0 <= j < |fields| ==> fields[j].0.Text? ==> key != "context." + fields[j].0.text))
  {
    var rest, name := fields[1..], "context." + fields[0].0.text;
    assert forall j :: 0 <= j < |rest| ==> rest[j] == fields[j + 1];
    assert forall j :: 1 <= j < |fields| ==> fields[j] == rest[j - 1];
    forall j | 1 <= j < |fields| ensures "context." + fields[j].0.text != name {
      PrefixedApart(fields[j].0.text, fields[0].0.text);
    }
    if key == name {
      assert forall j :: 0 <= j < |rest| ==> key != "context." + rest[j].0.text;
    }
  }

  // ----- the whole target -----

  /** The field sets the attribute `key`, to whatever value. */
  predicate FieldNames(field: (Yaml, Yaml), key: string) {
    || (field.0.Text? && field.0.text in {"agent", "tool", "user"} && key == field.0.text)
    || (IsKey(field.0, "context") && field.1.Mapping?
        && exists j :: 0 <= j < |field.1.fields| && field.1.fields[j].0.Text? && key == "context." + field.1.fields[j].0.text)
  }

  predicate Named(fields: seq<(Yaml, Yaml)>, key: string) {
    exists i :: 0 <= i < |fields| && FieldNames(fields[i], key)
  }

  /** What reading one more field makes of the attributes read so far. */
  function AfterField(field: (Yaml, Yaml), parsed: map<string, string>): Option<map<string, string>> {
    if field.0.Text? && field.0.text in {"agent", "tool", "user"} then
      if IsPlainText(field.1) then Some(parsed[field.0.text := field.1.text]) else None
    else if IsKey(field.0, "context") && field.1.Mapping? then ParseContext(field.1.fields, parsed)
    else None
  }

  lemma FieldAtATime(fields: seq<(Yaml, Yaml)>, parsed: map<string, string>)
    requires fields != []
    ensures ParseTargetFields(fields, parsed) ==
      if AfterField(fields[0], parsed).None? then None
      else ParseTargetFields(fields[1..], AfterField(fields[0], parsed).value)
  {
    assert IsKey(fields[0].0, "context") ==> fields[0].0.text !in {"agent", "tool", "user"};
  }

  lemma FieldReads(field: (Yaml, Yaml), parsed: map<string, string>, key: string, value: string)
    ensures AfterField(field, parsed).Some? <==> TargetFieldOk(field)
    ensures AfterField(field, parsed).Some? && (field.1.Mapping? ==> DistinctFields(field.1.fields)) ==>
      (Has(AfterField(field, parsed).value, key, value) <==>
         FieldAsks(field, key, value) || (Has(parsed, key, value) && !FieldNames(field, key)))
  {
    if IsKey(field.0, "context") && field.1.Mapping? {
      assert field.0.text !in {"agent", "tool", "user"};
      ContextReads(field.1.fields, parsed);
    }
  }

  /** The key of the field that can set an attribute. */
  function SetBy(key: string): string {
    if key in {"agent", "tool", "user"} then key else "context"
  }

  lemma NamedBySetter(field: (Yaml, Yaml), key: string)
    requires FieldNames(field, key)
    ensures IsKey(field.0, SetBy(key))
  {
    forall name: string ensures "context." + name !in {"agent", "tool", "user"} {
      PrefixedApart(name, "");
    }
  }

  /** Two fields of one target never set the same attribute. */
  lemma NamedOnce(fields: seq<(Yaml, Yaml)>, i: nat, key: string)
    requires DistinctFields(fields) && 0 < i < |fields| && FieldNames(fields[0], key)
    ensures !FieldNames(fields[i], key)
  {
    NamedBySetter(fields[0], key);
    if FieldNames(fields[i], key) {
      NamedBySetter(fields[i], key);
    }
  }

  lemma SplitFirst(fields: seq<(Yaml, Yaml)>, key: string, value: string)
    requires fields != []
    ensures Asks(fields, key, value) <==> FieldAsks(fields[0], key, value) || Asks(fields[1..], key, value)
    ensures Named(fields, key) <==> FieldNames(fields[0], key) || Named(fields[1..], key)
  {
    var rest := fields[1..];
    assert forall i :: 0 <= i < |rest| ==> rest[i] == fields[i + 1];
    if i :| 0 <= i < |fields| && FieldAsks(fields[i], key, value) {
      assert i > 0 ==> FieldAsks(rest[i - 1], key, value);
    }
    if i :| 0 <= i < |fields| && FieldNames(fields[i], key) {
      assert i > 0 ==> FieldNames(rest[i - 1], key);
    }
  }

  lemma {:induction false} FieldsRead(fields: seq<(Yaml, Yaml)>, parsed: map<string, string>, key: string, value: string)
    ensures ParseTargetFields(fields, parsed).Some? <==> forall i :: 0 <= i < |fields| ==> TargetFieldOk(fields[i])
    ensures ParseTargetFields(fields, parsed).Some? && DistinctFields(fields) && DistinctContext(fields) ==>
      (Has(ParseTargetFields(fields, parsed).value, key, value) <==>
         Asks(fields, key, value) || (Has(parsed, key, value) && !Named(fields, key)))
    decreases |fields|
  {
    if fields != [] {
      var rest := fields[1..];
      var next := AfterField(fields[0], parsed);
      FieldAtATime(fields, parsed);
      FieldReads(fields[0], parsed, key, value);
      assert forall i :: 0 <= i < |rest| ==> rest[i] == fields[i + 1];
      if next.Some? {
        FieldsRead(rest, next.value, key, value);
        SplitFirst(fields, key, value);
        if DistinctFields(fields) && FieldNames(fields[0], key) {
          forall i | 0 <= i < |rest| ensures !FieldNames(rest[i], key) {
            NamedOnce(fields, i + 1, key);
          }
          assert !Named(rest, key);
        }
        AskedIsNamed(fields[0], key, value);
      }
    }
  }

  lemma AskedIsNamed(field: (Yaml, Yaml), key: string, value: string)
    ensures FieldAsks(field, key, value) ==> FieldNames(field, key)
  {
  }

  /** A target is accepted exactly if all its fields are, and it asks for exactly what its fields ask for. */
  lemma TargetReadExactly(target: Yaml, key: string, value: string)
    ensures ParseTarget(Some(target)).Some? <==>
      target.Mapping? && forall i :: 0 <= i < |target.fields| ==> TargetFieldOk(target.fields[i])
    ensures ParseTarget(Some(target)).Some? && DistinctFields(target.fields) && DistinctContext(target.fields) ==>
      (Has(ParseTarget(Some(target)).value, key, value) <==> Asks(target.fields, key, value))
  {
    if target.Mapping? {
      FieldsRead(target.fields, map[], key, value);
    }
  }
}
