/** `PathVariable`: a named placeholder with a list of possible values, at
    most one of which is meant to be selected. The collection and property
    change handlers are modelled as the operations that trigger them. */
module PathVariables {
  import opened Wrappers

  datatype PossiblePathVariable = PossiblePathVariable(value: Option<string>, isSelected: bool)

  datatype PathVariable = PathVariable(name: Option<string>, possibleValues: seq<PossiblePathVariable>)

  predicate AtMostOneSelected(values: seq<PossiblePathVariable>) {
    forall i, j :: 0 <= i < |values| && 0 <= j < |values| && values[i].isSelected && values[j].isSelected ==> i == j
  }

  predicate AnySelected(values: seq<PossiblePathVariable>) {
    exists i :: 0 <= i < |values| && values[i].isSelected
  }

  /** Index of the first selected value, if any. */
  function FirstSelected(values: seq<PossiblePathVariable>): (r: Option<nat>)
    ensures r.None? <==> !AnySelected(values)
    ensures r.Some? ==> r.value < |values| && values[r.value].isSelected
    ensures r.Some? ==> forall k :: 0 <= k < r.value ==> !values[k].isSelected
    decreases |values|
  {
    if |values| == 0 then None
    else if values[0].isSelected then Some(0)
    else
      match FirstSelected(values[1..])
      case None => None
      case Some(k) => Some(k + 1)
  }

  /** The getter of `SelectedValue`: the first selected value, or null. */
  function SelectedValue(v: PathVariable): (r: Option<PossiblePathVariable>)
    ensures r.None? <==> !AnySelected(v.possibleValues)
    ensures r.Some? ==> r.value.isSelected && r.value in v.possibleValues
    ensures r.Some? ==> exists i :: 0 <= i < |v.possibleValues| && v.possibleValues[i] == r.value
                                 && !AnySelected(v.possibleValues[..i])
  {
    match FirstSelected(v.possibleValues)
    case None => None
    case Some(i) => Some(v.possibleValues[i])
  }

  /** With exactly one value selected, `SelectedValue` is that value. */
  lemma SelectedValueOfSingle(v: PathVariable, i: nat)
    requires i < |v.possibleValues| && v.possibleValues[i].isSelected
    requires AtMostOneSelected(v.possibleValues)
    ensures SelectedValue(v) == Some(v.possibleValues[i])
  {
  }

  /** `GenerateInitialValuesLists`: appends an empty, selected value. */
  function GenerateInitialValuesLists(v: PathVariable): (r: PathVariable)
    ensures r.name == v.name
    ensures |r.possibleValues| == |v.possibleValues| + 1
    ensures r.possibleValues[..|v.possibleValues|] == v.possibleValues
    ensures r.possibleValues[|v.possibleValues|] == PossiblePathVariable(Some(""), true)
  {
    v.(possibleValues := v.possibleValues + [PossiblePathVariable(Some(""), true)])
  }

  /** On a variable without values, the initial list is one selected empty
      string, and it is the selected value. */
  lemma InitialValueIsSelected(name: Option<string>)
    ensures GenerateInitialValuesLists(PathVariable(name, [])).possibleValues == [PossiblePathVariable(Some(""), true)]
    ensures SelectedValue(GenerateInitialValuesLists(PathVariable(name, []))) == Some(PossiblePathVariable(Some(""), true))
    ensures AtMostOneSelected(GenerateInitialValuesLists(PathVariable(name, [])).possibleValues)
  {
  }

  /** The property-changed handler for a value at index `i` that is now
      selected: every other value is deselected. */
  function DeselectOthers(values: seq<PossiblePathVariable>, i: nat): seq<PossiblePathVariable>
    requires i < |values|
  {
    seq(|values|, k requires 0 <= k < |values| => if k == i then values[k] else values[k].(isSelected := false))
  }

  /** Setting `IsSelected` of the value at `i`. An assignment that does not
      change the flag raises no event; a change to true makes `i` the only
      selected value; a change to false touches nothing else. An index out
      of range is not a value of the list and changes nothing. */
  function SetIsSelected(v: PathVariable, i: nat, selected: bool): (r: PathVariable)
    ensures r.name == v.name && |r.possibleValues| == |v.possibleValues|
    ensures forall k :: 0 <= k < |v.possibleValues| ==> r.possibleValues[k].value == v.possibleValues[k].value
    ensures i < |v.possibleValues| && selected && !v.possibleValues[i].isSelected ==>
              forall k :: 0 <= k < |r.possibleValues| ==> (r.possibleValues[k].isSelected <==> k == i)
    ensures i < |v.possibleValues| && !selected ==>
              forall k :: 0 <= k < |r.possibleValues| ==>
                r.possibleValues[k].isSelected == (k != i && v.possibleValues[k].isSelected)
    ensures i >= |v.possibleValues| || v.possibleValues[i].isSelected == selected ==> r == v
  {
    if i >= |v.possibleValues| || v.possibleValues[i].isSelected == selected then v
    else
      var values := v.possibleValues[i := v.possibleValues[i].(isSelected := selected)];
      if selected then v.(possibleValues := DeselectOthers(values, i))
      else v.(possibleValues := values)
  }

  /** Setting `Value` of the value at `i`: when the value is selected, every
      other value is deselected; an unchanged text raises no event. */
  function SetValue(v: PathVariable, i: nat, text: Option<string>): (r: PathVariable)
    requires i < |v.possibleValues|
    ensures r.name == v.name && |r.possibleValues| == |v.possibleValues|
    ensures r.possibleValues[i] == v.possibleValues[i].(value := text)
    ensures forall k :: 0 <= k < |v.possibleValues| && k != i ==> r.possibleValues[k].value == v.possibleValues[k].value
    ensures text != v.possibleValues[i].value && v.possibleValues[i].isSelected ==>
              forall k :: 0 <= k < |r.possibleValues| ==> (r.possibleValues[k].isSelected <==> k == i)
    ensures !v.possibleValues[i].isSelected ==>
              forall k :: 0 <= k < |r.possibleValues| ==> r.possibleValues[k].isSelected == v.possibleValues[k].isSelected
  {
    var values := v.possibleValues[i := v.possibleValues[i].(value := text)];
    if text != v.possibleValues[i].value && v.possibleValues[i].isSelected then
      v.(possibleValues := DeselectOthers(values, i))
    else v.(possibleValues := values)
  }

  /** The setter of `SelectedValue`: every value equal to `target` is
      selected. Values are objects, so the target is identified by its
      position; `None` stands for a null or foreign object. */
  function SetSelectedValue(v: PathVariable, target: Option<nat>): (r: PathVariable)
    ensures target.Some? && target.value < |v.possibleValues| && AtMostOneSelected(v.possibleValues) ==>
              |r.possibleValues| == |v.possibleValues| &&
              SelectedValue(r) == Some(r.possibleValues[target.value]) && AtMostOneSelected(r.possibleValues)
    ensures target.None? ==> r == v
  {
    match target
    case None => v
    case Some(i) =>
      var r := SetIsSelected(v, i, true);
      if i < |v.possibleValues| && AtMostOneSelected(v.possibleValues) then
        SetIsSelectedKeepsInvariant(v, i, true);
        SelectedValueOfSingle(r, i);
        r
      else r
  }

  /** Removing the value at `i`: when values remain and none of them is
      selected, the first one becomes selected. */
  function RemoveValue(v: PathVariable, i: nat): (r: PathVariable)
    requires i < |v.possibleValues|
    ensures r.name == v.name && |r.possibleValues| == |v.possibleValues| - 1
    ensures forall k :: 0 <= k < |r.possibleValues| ==>
              r.possibleValues[k].value == (if k < i then v.possibleValues[k] else v.possibleValues[k + 1]).value
    ensures |r.possibleValues| > 0 ==> AnySelected(r.possibleValues)
    ensures forall k :: 0 < k < |r.possibleValues| ==>
              r.possibleValues[k] == (if k < i then v.possibleValues[k] else v.possibleValues[k + 1])
    ensures |r.possibleValues| > 0 ==>
              r.possibleValues[0].isSelected == (if i == 0 then !SelectedBesides(v.possibleValues, i) || v.possibleValues[1].isSelected
                                                 else !SelectedBesides(v.possibleValues, i) || v.possibleValues[0].isSelected)
  {
    var rest := v.possibleValues[..i] + v.possibleValues[i + 1..];
    RemainingSelected(v.possibleValues, i);
    if |rest| > 0 && !AnySelected(rest) then
      var first := rest[0 := rest[0].(isSelected := true)];
      assert first[0].isSelected;
      v.(possibleValues := first)
    else v.(possibleValues := rest)
  }

  /** Some value other than the one at `i` is selected. */
  predicate SelectedBesides(values: seq<PossiblePathVariable>, i: nat) {
    exists k :: 0 <= k < |values| && k != i && values[k].isSelected
  }

  lemma RemainingSelected(values: seq<PossiblePathVariable>, i: nat)
    requires i < |values|
    ensures AnySelected(values[..i] + values[i + 1..]) <==> SelectedBesides(values, i)
  {
    var rest := values[..i] + values[i + 1..];
    if SelectedBesides(values, i) {
      var k :| 0 <= k < |values| && k != i && values[k].isSelected;
      assert rest[if k < i then k else k - 1] == values[k];
    }
    if AnySelected(rest) {
      var k :| 0 <= k < |rest| && rest[k].isSelected;
      assert values[if k < i then k else k + 1] == rest[k];
    }
  }

  /** Adding a value leaves every flag as it was. */
  function AddValue(v: PathVariable, p: PossiblePathVariable): (r: PathVariable)
    ensures r.possibleValues == v.possibleValues + [p]
    ensures forall k :: 0 <= k < |v.possibleValues| ==> r.possibleValues[k].isSelected == v.possibleValues[k].isSelected
  {
    v.(possibleValues := v.possibleValues + [p])
  }

  // ---------------------------------------------------------------------
  // The selection invariant

  lemma SetIsSelectedKeepsInvariant(v: PathVariable, i: nat, selected: bool)
    requires AtMostOneSelected(v.possibleValues)
    ensures AtMostOneSelected(SetIsSelected(v, i, selected).possibleValues)
  {
  }

  lemma SetValueKeepsInvariant(v: PathVariable, i: nat, text: Option<string>)
    requires i < |v.possibleValues|
    requires AtMostOneSelected(v.possibleValues)
    ensures AtMostOneSelected(SetValue(v, i, text).possibleValues)
  {
  }

  /** Removal keeps at most one value selected, and, while values remain,
      exactly one. */
  lemma RemoveValueKeepsInvariant(v: PathVariable, i: nat)
    requires i < |v.possibleValues|
    requires AtMostOneSelected(v.possibleValues)
    ensures AtMostOneSelected(RemoveValue(v, i).possibleValues)
    ensures |RemoveValue(v, i).possibleValues| > 0 ==> SelectedValue(RemoveValue(v, i)).Some?
  {
    var rest := v.possibleValues[..i] + v.possibleValues[i + 1..];
    forall a, b | 0 <= a < |rest| && 0 <= b < |rest| && rest[a].isSelected && rest[b].isSelected
      ensures a == b
    {
      var a' := if a < i then a else a + 1;
      var b' := if b < i then b else b + 1;
      assert rest[a] == v.possibleValues[a'];
      assert rest[b] == v.possibleValues[b'];
    }
  }

  /** Adding an unselected value keeps the invariant; adding a selected one
      to a list that already has a selection breaks it, since the add
      handler deselects nothing. */
  lemma AddValueInvariant(v: PathVariable, p: PossiblePathVariable)
    requires AtMostOneSelected(v.possibleValues)
    ensures !p.isSelected ==> AtMostOneSelected(AddValue(v, p).possibleValues)
    ensures p.isSelected && AnySelected(v.possibleValues) ==> !AtMostOneSelected(AddValue(v, p).possibleValues)
  {
    if p.isSelected && AnySelected(v.possibleValues) {
      var i :| 0 <= i < |v.possibleValues| && v.possibleValues[i].isSelected;
      var r := AddValue(v, p).possibleValues;
      assert r[i].isSelected && r[|v.possibleValues|].isSelected;
    }
  }
}
