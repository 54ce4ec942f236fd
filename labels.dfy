/**
  The label table of the account as `createLabel` sees it, and the effect of one lookup-or-create
  on it. The two remote calls are given by their outcomes: whether `labels.list` answered, and the
  id of the new label when `labels.create` succeeded.
 */
module Labels {
  import opened Wrappers
  import opened Seqs

  datatype Label = Label(id: string, name: string)

  /** `labels.find(l => l.name === labelName)`. */
  function Lookup(labels: seq<Label>, name: string): (r: Option<Label>)
    ensures r.Some? ==> r.value in labels && r.value.name == name
    ensures r.None? <==> forall k :: 0 <= k < |labels| ==> labels[k].name != name
  {
    Find(labels, (l: Label) => l.name == name)
  }

  /** Some label of the table carries `name`. */
  predicate HasLabel(labels: seq<Label>, name: string) {
    exists k :: 0 <= k < |labels| && labels[k].name == name
  }

  /** The number of labels carrying `name`. */
  function CountNamed(labels: seq<Label>, name: string): nat {
    CountWhere(labels, (l: Label) => l.name == name)
  }

  /**
    The table after `createLabel(name)`: unchanged when the list call fails, when a label of that
    name exists, or when the create call fails; otherwise the table with the new label at its end.
   */
  function AfterCreateLabel(labels: seq<Label>, name: string, listed: bool, created: Option<string>): (r: seq<Label>)
    ensures labels <= r && |r| <= |labels| + 1
    ensures |r| == |labels| + 1 <==> listed && !HasLabel(labels, name) && created.Some?
    ensures |r| == |labels| + 1 ==> r[|labels|] == Label(created.value, name)
  {
    if !listed then labels
    else if Lookup(labels, name).Some? then labels
    else if created.Some? then labels + [Label(created.value, name)]
    else labels
  }

  /** A label of the name is there afterwards exactly when it was before or both calls succeeded. */
  lemma CreateLabelProvides(labels: seq<Label>, name: string, listed: bool, created: Option<string>)
    ensures HasLabel(AfterCreateLabel(labels, name, listed, created), name) <==>
      HasLabel(labels, name) || (listed && created.Some?)
  {
    var r := AfterCreateLabel(labels, name, listed, created);
    if HasLabel(r, name) && !HasLabel(labels, name) {
      var k :| 0 <= k < |r| && r[k].name == name;
      assert k == |labels|;
    }
    if !HasLabel(labels, name) && listed && created.Some? {
      assert r[|labels|].name == name;
    }
  }

  /** Once a label of the name exists, further calls leave the table as it is, whatever they answer. */
  lemma CreateLabelIdempotent(labels: seq<Label>, name: string, listed: bool, created: Option<string>)
    requires HasLabel(labels, name)
    ensures AfterCreateLabel(labels, name, listed, created) == labels
  {
  }

  /** Appending one label raises the count of its own name by one and no other. */
  lemma {:induction false} CountNamedAppend(labels: seq<Label>, l: Label, name: string)
    ensures CountNamed(labels + [l], name) == CountNamed(labels, name) + (if l.name == name then 1 else 0)
  {
    assert (labels + [l])[..|labels|] == labels;
  }

  /** The count is zero exactly when no label carries the name. */
  lemma {:induction false} CountNamedHas(labels: seq<Label>, name: string)
    ensures CountNamed(labels, name) > 0 <==> HasLabel(labels, name)
    decreases |labels|
  {
    if |labels| > 0 {
      var init := labels[..|labels| - 1];
      CountNamedHas(init, name);
      if HasLabel(labels, name) && labels[|labels| - 1].name != name {
        var k :| 0 <= k < |labels| && labels[k].name == name;
        assert init[k].name == name;
      }
      if HasLabel(init, name) {
        var k :| 0 <= k < |init| && init[k].name == name;
        assert labels[k].name == name;
      }
    }
  }

  /** Lookup-or-create never puts a second label of any name into the table. */
  lemma CreateLabelKeepsNamesUnique(labels: seq<Label>, name: string, listed: bool, created: Option<string>, other: string)
    requires CountNamed(labels, other) <= 1
    ensures CountNamed(AfterCreateLabel(labels, name, listed, created), other) <= 1
  {
    var r := AfterCreateLabel(labels, name, listed, created);
    if |r| == |labels| + 1 {
      assert r == labels + [Label(created.value, name)];
      CountNamedAppend(labels, Label(created.value, name), other);
      if name == other {
        CountNamedHas(labels, other);
      }
    }
  }
}
