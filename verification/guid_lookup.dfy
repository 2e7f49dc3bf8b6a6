/** Finding a configuration item by its `GuidInfo`: `GetConfigurationItem`
    and the `GuidInfoConverter` that shows the item a `GuidInfo` names. */
module GuidLookup {
  import opened Wrappers
  import opened GuidInfos
  import opened ConfigurationItems

  /** The position of the first item whose `GuidInfo` equals `g`. */
  function FirstWithGuid(items: seq<ConfigurationItem>, g: GuidInfo): (r: Option<nat>)
    ensures r.None? <==> forall i :: 0 <= i < |items| ==> !EqualsObj(items[i].guidInfo, GuidObj(g))
    ensures r.Some? ==> r.value < |items| && EqualsObj(items[r.value].guidInfo, GuidObj(g))
                        && forall j :: 0 <= j < r.value ==> !EqualsObj(items[j].guidInfo, GuidObj(g))
    decreases |items|
  {
    if |items| == 0 then None
    else if EqualsObj(items[0].guidInfo, GuidObj(g)) then Some(0)
    else
      var r := FirstWithGuid(items[1..], g);
      assert forall i :: 1 <= i < |items| ==> items[i] == items[1..][i - 1];
      match r
      case None => None
      case Some(i) => Some(i + 1)
  }

  /** `GetConfigurationItem`: the first item with this `GuidInfo`, or null. */
  function GetConfigurationItem(items: seq<ConfigurationItem>, g: GuidInfo): (r: Option<ConfigurationItem>)
    ensures r.None? <==> forall i :: 0 <= i < |items| ==> items[i].guidInfo != g
    ensures r.Some? ==> r.value in items && r.value.guidInfo == g
    ensures r.Some? ==> exists i :: 0 <= i < |items| && items[i] == r.value
                                 && forall j :: 0 <= j < i ==> items[j].guidInfo != g
  {
    match FirstWithGuid(items, g)
    case None => None
    case Some(i) => Some(items[i])
  }

  /** Looking up an item's own `GuidInfo` finds that item when no earlier
      item shares it. */
  lemma LookupFindsItem(items: seq<ConfigurationItem>, k: nat)
    requires k < |items|
    requires forall j :: 0 <= j < k ==> items[j].guidInfo != items[k].guidInfo
    ensures FirstWithGuid(items, items[k].guidInfo) == Some(k)
    ensures GetConfigurationItem(items, items[k].guidInfo) == Some(items[k])
  {
  }

  /** Items after the first match do not change what a lookup finds. */
  lemma LookupIgnoresLaterItems(items: seq<ConfigurationItem>, more: seq<ConfigurationItem>, g: GuidInfo)
    requires FirstWithGuid(items, g).Some?
    ensures FirstWithGuid(items + more, g) == FirstWithGuid(items, g)
  {
    var k := FirstWithGuid(items, g).value;
    assert (items + more)[k] == items[k];
    assert forall j :: 0 <= j < k ==> (items + more)[j] == items[j];
  }

  /** The word for "none" in `<None>` comes from the resources. */
  function NoneLabel(none: string): string {
    "<" + none + ">"
  }

  /** What the converter receives: a `GuidInfo`, a configuration item, or
      anything else (null included). */
  datatype Value = GuidValue(info: GuidInfo) | ItemValue(item: ConfigurationItem) | OtherValue

  /** `Convert`: the name of the item the `GuidInfo` names, or `<None>` when
      the value is no `GuidInfo`, no item has it, or the item has no name. */
  function Convert(items: seq<ConfigurationItem>, value: Value, none: string): (r: string)
    ensures !value.GuidValue? ==> r == NoneLabel(none)
    ensures value.GuidValue? ==>
              match GetConfigurationItem(items, value.info)
              case None => r == NoneLabel(none)
              case Some(item) => r == item.name.GetOr(NoneLabel(none))
  {
    match value
    case GuidValue(g) =>
      (match FirstWithGuid(items, g)
       case Some(i) => items[i].name.GetOr(NoneLabel(none))
       case None => NoneLabel(none))
    case _ => NoneLabel(none)
  }

  /** `ConvertBack`: the `GuidInfo` of an item; anything else gives null. */
  function ConvertBack(value: Value): (r: Option<GuidInfo>)
    ensures r.Some? <==> value.ItemValue?
    ensures value.ItemValue? ==> r == Some(value.item.guidInfo)
  {
    match value
    case ItemValue(item) => Some(item.guidInfo)
    case _ => None
  }

  /** Converting back and then forth shows the item's name, when the item
      is in the list, is the first with its `GuidInfo`, and has a name. */
  lemma ConvertRoundTrip(items: seq<ConfigurationItem>, k: nat, none: string)
    requires k < |items| && items[k].name.Some?
    requires forall j :: 0 <= j < k ==> items[j].guidInfo != items[k].guidInfo
    ensures Convert(items, GuidValue(ConvertBack(ItemValue(items[k])).value), none) == items[k].name.value
  {
    LookupFindsItem(items, k);
  }
}
