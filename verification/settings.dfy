/** `Setting<T>` and `DependentSettingCollection`: a setting keeps a boxed
    value that stays null until first read or written, a default, and a
    nullable "option selected" flag. Values of `T` are non-null here. */
module Settings {
  import opened Wrappers

  datatype Setting<T> = Setting(
    stored: Option<T>,
    defaultValue: T,
    internalOptionSelected: Option<bool>,
    /** The `PossibleValuesDelegate`: `None` when unassigned, otherwise the
        delegate's result, itself null or a list. */
    possibleValuesDelegate: Option<Option<seq<T>>>)

  /** A setting as its object initialiser creates it: only the default is set. */
  function NewSetting<T>(defaultValue: T): Setting<T> {
    Setting(None, defaultValue, None, None)
  }

  /** The value the getter of `Value` returns. */
  function ValueOf<T>(s: Setting<T>): T {
    s.stored.GetOr(s.defaultValue)
  }

  /** Reading `Value`: the stored value, or the default, which the getter
      then stores, so that later changes of the default no longer show. */
  function ReadValue<T>(s: Setting<T>): (r: (T, Setting<T>))
    ensures r.0 == ValueOf(s)
    ensures r.1.stored == Some(r.0)
    ensures r.1.defaultValue == s.defaultValue && r.1.internalOptionSelected == s.internalOptionSelected
    ensures r.1.possibleValuesDelegate == s.possibleValuesDelegate
    ensures ValueOf(r.1) == ValueOf(s)
  {
    match s.stored
    case Some(v) => (v, s)
    case None => (s.defaultValue, s.(stored := Some(s.defaultValue)))
  }

  /** Assigning `Value`. */
  function WriteValue<T>(s: Setting<T>, v: T): (r: Setting<T>)
    ensures ValueOf(r) == v
    ensures r.defaultValue == s.defaultValue && r.internalOptionSelected == s.internalOptionSelected
    ensures r.possibleValuesDelegate == s.possibleValuesDelegate
  {
    s.(stored := Some(v))
  }

  /** A never-written setting reads as its default, and that default is
      cached: changing `DefaultValue` afterwards does not change `Value`. */
  lemma DefaultIsCached<T>(s: Setting<T>, laterDefault: T)
    requires s.stored.None?
    ensures ReadValue(s).0 == s.defaultValue
    ensures ValueOf(ReadValue(s).1.(defaultValue := laterDefault)) == s.defaultValue
  {
  }

  /** Writing then reading gives back the written value and leaves it stored. */
  lemma WriteThenRead<T>(s: Setting<T>, v: T)
    ensures ReadValue(WriteValue(s, v)).0 == v
    ensures ReadValue(WriteValue(s, v)).1 == WriteValue(s, v)
  {
  }

  /** `OptionSelected`: the nullable flag, false while never set. */
  function OptionSelected<T>(s: Setting<T>): (r: bool)
    ensures s.internalOptionSelected.None? ==> !r
    ensures s.internalOptionSelected.Some? ==> r == s.internalOptionSelected.value
  {
    s.internalOptionSelected.GetOr(false)
  }

  function SetOptionSelected<T>(s: Setting<T>, b: bool): (r: Setting<T>)
    ensures OptionSelected(r) == b && r.internalOptionSelected.Some?
    ensures ValueOf(r) == ValueOf(s) && r.possibleValuesDelegate == s.possibleValuesDelegate
  {
    s.(internalOptionSelected := Some(b))
  }

  /** `Apply(source)`: the target takes the source's value (read through the
      source's getter, which may cache the source's default), and its
      "option selected" flag only when the source's flag was ever set.
      Returns the updated target and the source after its read. */
  function Apply<T>(target: Setting<T>, source: Setting<T>): (r: (Setting<T>, Setting<T>))
    ensures ValueOf(r.0) == ValueOf(source)
    ensures source.internalOptionSelected.Some? ==> OptionSelected(r.0) == OptionSelected(source)
    ensures source.internalOptionSelected.None? ==> r.0.internalOptionSelected == target.internalOptionSelected
    ensures r.0.defaultValue == target.defaultValue
    ensures r.0.possibleValuesDelegate == target.possibleValuesDelegate
    ensures ValueOf(r.1) == ValueOf(source) && r.1.internalOptionSelected == source.internalOptionSelected
  {
    var (v, source1) := ReadValue(source);
    var target1 := WriteValue(target, v);
    if source1.internalOptionSelected.Some? then
      (SetOptionSelected(target1, OptionSelected(source1)), source1)
    else
      (target1, source1)
  }

  /** Applying a setting to a copy of itself changes nothing a reader sees. */
  lemma ApplyToSelf<T>(s: Setting<T>)
    ensures ValueOf(Apply(s, s).0) == ValueOf(s)
    ensures OptionSelected(Apply(s, s).0) == OptionSelected(s)
  {
  }

  /** `PossibleValues`: the delegate's result when a delegate is assigned
      (null if the delegate returns null); otherwise every member of `T` when
      `T` is an enumeration (`enumMembers`); otherwise an empty list. */
  function PossibleValues<T>(s: Setting<T>, enumMembers: Option<seq<T>>): (r: Option<seq<T>>)
    ensures r.None? ==> s.possibleValuesDelegate == Some(None)
    ensures s.possibleValuesDelegate.Some? ==> r == s.possibleValuesDelegate.value
    ensures s.possibleValuesDelegate.None? && enumMembers.Some? ==> r == enumMembers
    ensures s.possibleValuesDelegate.None? && enumMembers.None? ==> r == Some([])
  {
    match s.possibleValuesDelegate
    case Some(result) => result
    case None =>
      match enumMembers
      case Some(members) => Some(members)
      case None => Some([])
  }

  /** `PossibleValues` depends on the delegate and the type only: reading or
      assigning `Value`, setting `OptionSelected` or applying another setting
      leaves the offered list as it was. */
  lemma PossibleValuesSurviveAssignment<T>(s: Setting<T>, other: Setting<T>, v: T, b: bool, enumMembers: Option<seq<T>>)
    ensures PossibleValues(ReadValue(s).1, enumMembers) == PossibleValues(s, enumMembers)
    ensures PossibleValues(WriteValue(s, v), enumMembers) == PossibleValues(s, enumMembers)
    ensures PossibleValues(SetOptionSelected(s, b), enumMembers) == PossibleValues(s, enumMembers)
    ensures PossibleValues(Apply(s, other).0, enumMembers) == PossibleValues(s, enumMembers)
  {
  }

  /** `DependentSettingCollection.Show`: `conditionToShow` is the result of
      invoking `ConditionToShow`, or `None` when that delegate is null. */
  function Show(conditionToShow: Option<bool>): (r: bool)
    ensures conditionToShow.None? ==> !r
    ensures conditionToShow.Some? ==> r == conditionToShow.value
  {
    conditionToShow == Some(true)
  }

  /** A `DependentSettingCollection` under a parent setting. Its condition is
      a function of what the parent exposes, its `Value` and `OptionSelected`;
      `None` is a null `ConditionToShow`. */
  datatype DependentSettings<!T> = DependentSettings(conditionToShow: Option<(T, bool) -> bool>)

  /** `Show` evaluated against the parent's current state. */
  function ShowOf<T>(d: DependentSettings<T>, parent: Setting<T>): bool {
    Show(match d.conditionToShow
         case Some(condition) => Some(condition(ValueOf(parent), OptionSelected(parent)))
         case None => None)
  }

  /** The property-changed notifications a setting raises. */
  datatype Notification = ValueChanged | OptionSelectedChanged

  /** Assigning `Value` through the observable setter: the boxed field is
      replaced, and `Value` is announced unless the field already held an
      equal value (a never-read setting holds null, unequal to any value). */
  function AssignValue<T(==)>(s: Setting<T>, v: T): (r: (Setting<T>, set<Notification>))
    ensures r.0 == WriteValue(s, v)
    ensures ValueChanged in r.1 <==> s.stored != Some(v)
    ensures OptionSelectedChanged !in r.1
  {
    (WriteValue(s, v), if s.stored == Some(v) then {} else {ValueChanged})
  }

  /** Assigning `OptionSelected` through the observable setter, announced
      unless the nullable flag already held that value. */
  function AssignOptionSelected<T>(s: Setting<T>, b: bool): (r: (Setting<T>, set<Notification>))
    ensures r.0 == SetOptionSelected(s, b)
    ensures OptionSelectedChanged in r.1 <==> s.internalOptionSelected != Some(b)
    ensures ValueChanged !in r.1
  {
    (SetOptionSelected(s, b), if s.internalOptionSelected == Some(b) then {} else {OptionSelectedChanged})
  }

  /** The collection forwards every property change of its parent as a
      change of `Show`. */
  predicate ShowRaised(parentNotifications: set<Notification>) {
    parentNotifications != {}
  }

  /** `Show` never goes stale: an assignment to the parent that changes what
      `Show` returns raises a notification, which the collection forwards;
      and reading the parent's `Value`, which caches the default silently,
      leaves `Show` unchanged. */
  lemma ShowNeverStale<T>(d: DependentSettings<T>, parent: Setting<T>, v: T, b: bool)
    ensures ShowOf(d, AssignValue(parent, v).0) != ShowOf(d, parent) ==> ShowRaised(AssignValue(parent, v).1)
    ensures ShowOf(d, AssignOptionSelected(parent, b).0) != ShowOf(d, parent) ==> ShowRaised(AssignOptionSelected(parent, b).1)
    ensures ShowOf(d, ReadValue(parent).1) == ShowOf(d, parent)
  {
  }
}
