/** The commands of the configuration grid: duplicating the selected item
    through an XML round trip, and opening the settings window of the
    selected item. Moving and reloading delegate to the main window's
    commands and to `Configurations.Reload`. */
module ConfigurationDataGrid {
  import opened Wrappers
  import opened Sequences
  import opened Settings
  import opened GuidInfos
  import opened DirectoryItems
  import opened DirectoryPairs
  import opened ConfigurationItems
  import opened Configurations
  import opened GuidLookup

  // ---------------------------------------------------------------------
  // What the XML round trip keeps

  /** Two settings read alike: the same `Value` and the same `OptionSelected`. */
  predicate SameSetting<T(==)>(a: Setting<T>, b: Setting<T>) {
    ValueOf(a) == ValueOf(b) && OptionSelected(a) == OptionSelected(b)
  }

  /** Two items whose seven settings read alike. */
  predicate SameSettings(a: ConfigurationItem, b: ConfigurationItem) {
    && SameSetting(a.enabled, b.enabled)
    && SameSetting(a.leftButNotRight, b.leftButNotRight)
    && SameSetting(a.newerOnLeft, b.newerOnLeft)
    && SameSetting(a.newerOnRight, b.newerOnRight)
    && SameSetting(a.exclusionsList, b.exclusionsList)
    && SameSetting(a.lockedFile, b.lockedFile)
    && SameSetting(a.fileView, b.fileView)
  }

  /** Two items whose settings read alike and whose other settings agree. */
  predicate SameValues(a: ConfigurationItem, b: ConfigurationItem) {
    SameSettings(a, b) && a.extra == b.extra
  }

  /** A setting after the serializer has read its `Value`: the getter has
      cached the default, and nothing else changes. */
  function Cached<T(==)>(s: Setting<T>): (r: Setting<T>)
    ensures SameSetting(r, s) && r.stored.Some?
    ensures r.defaultValue == s.defaultValue && r.possibleValuesDelegate == s.possibleValuesDelegate
  {
    ReadValue(s).1
  }

  /** The selected item after it has been serialized: every setting's
      default is cached. The groups hold the same setting objects, so they
      show the cached settings too. */
  function Serialized(item: ConfigurationItem): (r: ConfigurationItem)
    ensures SameValues(r, item) && GroupsCurrent(r)
    ensures r.name == item.name && r.guidInfo == item.guidInfo
    ensures r.sourceDirectories == item.sourceDirectories && r.destinationDirectories == item.destinationDirectories
    ensures r.pairs == item.pairs
  {
    var t := item.(enabled := Cached(item.enabled), leftButNotRight := Cached(item.leftButNotRight),
                   newerOnLeft := Cached(item.newerOnLeft), newerOnRight := Cached(item.newerOnRight),
                   exclusionsList := Cached(item.exclusionsList), lockedFile := Cached(item.lockedFile),
                   fileView := Cached(item.fileView));
    t.(groups := [BuildGroup(t, 0), BuildGroup(t, 1), BuildGroup(t, 2), BuildGroup(t, 3)])
  }

  /** A setting as the deserializer rebuilds it: a new object holding the
      written `Value` and `OptionSelected`; the delegate is not written. */
  function Deserialized<T(==)>(s: Setting<T>): (r: Setting<T>)
    ensures SameSetting(r, s)
    ensures r.stored.Some? && r.internalOptionSelected.Some? && r.possibleValuesDelegate.None?
  {
    Setting(Some(ValueOf(s)), s.defaultValue, Some(OptionSelected(s)), None)
  }

  /** The delegate is not serialized, so a deserialized setting offers the
      members of an enumeration type, or nothing, whatever the original offered. */
  lemma DeserializedPossibleValues<T>(s: Setting<T>, enumMembers: Option<seq<T>>)
    ensures PossibleValues(Deserialized(s), enumMembers) == Some(enumMembers.GetOr([]))
  {
  }

  /** The directories as the deserializer rebuilds them: new objects, with
      identities from `firstId` on, holding the written raw paths. */
  function CopyDirectories(ds: seq<DirectoryItem>, firstId: nat): (r: seq<DirectoryItem>)
    ensures |r| == |ds|
    ensures forall k :: 0 <= k < |ds| ==> r[k].rawPath == ds[k].rawPath && r[k].id >= firstId
  {
    seq(|ds|, k requires 0 <= k < |ds| => DirectoryItem(firstId + k, ds[k].rawPath))
  }

  /** The deserializer adds the directories of one list one at a time, and
      every addition rebuilds the pairs. */
  function AddDirectories(item: ConfigurationItem, ds: seq<DirectoryItem>, toSources: bool,
                          normalized: DirectoryItem -> Option<string>, nextId: nat): (r: ConfigurationItem)
    ensures toSources ==> r.sourceDirectories == item.sourceDirectories + ds
                          && r.destinationDirectories == item.destinationDirectories
    ensures !toSources ==> r.destinationDirectories == item.destinationDirectories + ds
                           && r.sourceDirectories == item.sourceDirectories
    ensures r == item.(sourceDirectories := r.sourceDirectories, destinationDirectories := r.destinationDirectories,
                       pairs := r.pairs)
    decreases |ds|
  {
    if |ds| == 0 then item
    else
      var next := if toSources then SetDirectories(item, item.sourceDirectories + [ds[0]], item.destinationDirectories, normalized, nextId)
                  else SetDirectories(item, item.sourceDirectories, item.destinationDirectories + [ds[0]], normalized, nextId);
      assert item.sourceDirectories + [ds[0]] + ds[1..] == item.sourceDirectories + ds;
      assert item.destinationDirectories + [ds[0]] + ds[1..] == item.destinationDirectories + ds;
      AddDirectories(next, ds[1..], toSources, normalized, nextId + |next.pairs|)
  }

  /** After at least one addition, or when they were current to begin with,
      the pairs stand for the lists. */
  lemma {:induction false} AddDirectoriesPairsCurrent(item: ConfigurationItem, ds: seq<DirectoryItem>, toSources: bool,
                                                      normalized: DirectoryItem -> Option<string>, nextId: nat)
    requires |ds| > 0 || PairsCurrent(item, normalized)
    ensures PairsCurrent(AddDirectories(item, ds, toSources, normalized, nextId), normalized)
    decreases |ds|
  {
    if |ds| > 0 {
      var next := if toSources then SetDirectories(item, item.sourceDirectories + [ds[0]], item.destinationDirectories, normalized, nextId)
                  else SetDirectories(item, item.sourceDirectories, item.destinationDirectories + [ds[0]], normalized, nextId);
      if toSources {
        SetDirectoriesPairsCurrent(item, item.sourceDirectories + [ds[0]], item.destinationDirectories, normalized, nextId);
      } else {
        SetDirectoriesPairsCurrent(item, item.sourceDirectories, item.destinationDirectories + [ds[0]], normalized, nextId);
      }
      AddDirectoriesPairsCurrent(next, ds[1..], toSources, normalized, nextId + |next.pairs|);
    }
  }

  /** Additions create pairs with identities from `nextId` on: when every
      pair has an identity of at least `low` before, so does every pair after. */
  lemma {:induction false} AddDirectoriesFreshPairs(item: ConfigurationItem, ds: seq<DirectoryItem>, toSources: bool,
                                                    normalized: DirectoryItem -> Option<string>, nextId: nat, low: nat)
    requires low <= nextId
    requires forall p :: p in item.pairs ==> p.id >= low
    ensures forall p :: p in AddDirectories(item, ds, toSources, normalized, nextId).pairs ==> p.id >= low
    decreases |ds|
  {
    if |ds| > 0 {
      var next := if toSources then SetDirectories(item, item.sourceDirectories + [ds[0]], item.destinationDirectories, normalized, nextId)
                  else SetDirectories(item, item.sourceDirectories, item.destinationDirectories + [ds[0]], normalized, nextId);
      PairUpReusesOrFresh(item.pairs, next.sourceDirectories, next.destinationDirectories, normalized, nextId);
      AddDirectoriesFreshPairs(next, ds[1..], toSources, normalized, nextId + |next.pairs|, low);
    }
  }

  /** Reading back the two lists into an item without directories: first
      the sources, then the destinations. */
  function ReadLists(blank: ConfigurationItem, sources: seq<DirectoryItem>, destinations: seq<DirectoryItem>,
                     normalized: DirectoryItem -> Option<string>, nextPairId: nat): (r: ConfigurationItem)
    ensures r.sourceDirectories == blank.sourceDirectories + sources
    ensures r.destinationDirectories == blank.destinationDirectories + destinations
    ensures r == blank.(sourceDirectories := r.sourceDirectories, destinationDirectories := r.destinationDirectories,
                        pairs := r.pairs)
  {
    var withSources := AddDirectories(blank, sources, true, normalized, nextPairId);
    AddDirectories(withSources, destinations, false, normalized, nextPairId)
  }

  /** Read back into an item with no directories and no pairs, the lists
      end up with current pairs, all of them new. */
  lemma ReadListsPairs(blank: ConfigurationItem, sources: seq<DirectoryItem>, destinations: seq<DirectoryItem>,
                       normalized: DirectoryItem -> Option<string>, nextPairId: nat)
    requires blank.sourceDirectories == [] && blank.destinationDirectories == [] && blank.pairs == []
    ensures var r := ReadLists(blank, sources, destinations, normalized, nextPairId);
            PairsCurrent(r, normalized) && forall p :: p in r.pairs ==> p.id >= nextPairId
  {
    var withSources := AddDirectories(blank, sources, true, normalized, nextPairId);
    if |sources| > 0 {
      AddDirectoriesPairsCurrent(blank, sources, true, normalized, nextPairId);
    }
    AddDirectoriesPairsCurrent(withSources, destinations, false, normalized, nextPairId);
    AddDirectoriesFreshPairs(blank, sources, true, normalized, nextPairId, nextPairId);
    AddDirectoriesFreshPairs(withSources, destinations, false, normalized, nextPairId, nextPairId);
  }

  /** The deserializer assigns every setting of `target` a new setting
      object read back from `from`; each assignment rebuilds the group that
      shows the setting. Name, identity, lists and pairs stay as they are. */
  function AssignSettings(target: ConfigurationItem, from: ConfigurationItem): (r: ConfigurationItem)
    ensures SameSettings(r, from)
    ensures GroupsCurrent(r)
    ensures r.name == target.name && r.guidInfo == target.guidInfo && r.extra == target.extra
    ensures r.sourceDirectories == target.sourceDirectories && r.destinationDirectories == target.destinationDirectories
    ensures r.pairs == target.pairs
  {
    var copied := target.(enabled := Deserialized(from.enabled), leftButNotRight := Deserialized(from.leftButNotRight),
                          newerOnLeft := Deserialized(from.newerOnLeft), newerOnRight := Deserialized(from.newerOnRight),
                          exclusionsList := Deserialized(from.exclusionsList), lockedFile := Deserialized(from.lockedFile),
                          fileView := Deserialized(from.fileView));
    copied.(groups := [BuildGroup(copied, 0), BuildGroup(copied, 1), BuildGroup(copied, 2), BuildGroup(copied, 3)])
  }

  /** The first part of reading an item back: a new item with the written
      name and `GuidInfo`, into which the two lists are read, their
      directories rebuilt as new objects. */
  function ReadBack(item: ConfigurationItem, firstDirectoryId: nat, nextPairId: nat,
                    normalized: DirectoryItem -> Option<string>): (r: ConfigurationItem)
    ensures r.name == item.name && r.guidInfo == item.guidInfo && r.extra == item.extra
    ensures |r.sourceDirectories| == |item.sourceDirectories|
    ensures forall k :: 0 <= k < |item.sourceDirectories| ==> r.sourceDirectories[k].rawPath == item.sourceDirectories[k].rawPath
    ensures |r.destinationDirectories| == |item.destinationDirectories|
    ensures forall k :: 0 <= k < |item.destinationDirectories| ==>
              r.destinationDirectories[k].rawPath == item.destinationDirectories[k].rawPath
    ensures forall d :: d in r.sourceDirectories + r.destinationDirectories ==> d.id >= firstDirectoryId
    ensures PairsCurrent(r, normalized) && forall p :: p in r.pairs ==> p.id >= nextPairId
  {
    var sources := CopyDirectories(item.sourceDirectories, firstDirectoryId);
    var destinations := CopyDirectories(item.destinationDirectories, firstDirectoryId + |sources|);
    var blank := NewItem(item.guidInfo, item.extra).(name := item.name);
    ReadListsPairs(blank, sources, destinations, normalized, nextPairId);
    ReadLists(blank, sources, destinations, normalized, nextPairId)
  }

  /** The item the deserializer builds from the written one: a new item,
      whose name and directory lists are read back (the lists one directory
      at a time), and whose settings are assigned new setting objects, each
      assignment rebuilding the group that shows it. The `GuidInfo` and the
      settings declared outside `ConfigurationItem.cs` are taken over as
      values. */
  function XmlCopy(item: ConfigurationItem, firstDirectoryId: nat, nextPairId: nat,
                   normalized: DirectoryItem -> Option<string>): (r: ConfigurationItem)
    ensures r.name == item.name && r.guidInfo == item.guidInfo
    ensures SameValues(r, item)
    ensures |r.sourceDirectories| == |item.sourceDirectories|
    ensures forall k :: 0 <= k < |item.sourceDirectories| ==> r.sourceDirectories[k].rawPath == item.sourceDirectories[k].rawPath
    ensures |r.destinationDirectories| == |item.destinationDirectories|
    ensures forall k :: 0 <= k < |item.destinationDirectories| ==>
              r.destinationDirectories[k].rawPath == item.destinationDirectories[k].rawPath
    ensures GroupsCurrent(r)
  {
    AssignSettings(ReadBack(item, firstDirectoryId, nextPairId, normalized), item)
  }

  /** Whether the pairs are current depends on the lists and the pairs only. */
  lemma SamePairsStayCurrent(a: ConfigurationItem, b: ConfigurationItem, normalized: DirectoryItem -> Option<string>)
    requires PairsCurrent(a, normalized)
    requires b.pairs == a.pairs
    requires b.sourceDirectories == a.sourceDirectories && b.destinationDirectories == a.destinationDirectories
    ensures PairsCurrent(b, normalized)
  {
  }

  /** The copy's pairs stand for its own lists, and it shares no directory
      and no pair with the original when the identities it is given are
      above those the original uses. */
  lemma XmlCopyIsIndependent(item: ConfigurationItem, firstDirectoryId: nat, nextPairId: nat,
                             normalized: DirectoryItem -> Option<string>)
    requires forall d :: d in item.sourceDirectories + item.destinationDirectories ==> d.id < firstDirectoryId
    requires forall p :: p in item.pairs ==> p.id < nextPairId
    ensures var r := XmlCopy(item, firstDirectoryId, nextPairId, normalized);
            && PairsCurrent(r, normalized)
            && (forall d :: d in r.sourceDirectories + r.destinationDirectories ==>
                  d !in item.sourceDirectories + item.destinationDirectories)
            && (forall p :: p in r.pairs ==> p !in item.pairs)
  {
    var w := ReadBack(item, firstDirectoryId, nextPairId, normalized);
    var r := XmlCopy(item, firstDirectoryId, nextPairId, normalized);
    assert r == AssignSettings(w, item);
    SamePairsStayCurrent(w, r, normalized);
  }

  // ---------------------------------------------------------------------
  // Duplicate

  /** `DuplicateConfigurationItem`: with an item selected, it is written to
      XML and read back; the copy is named by the duplicate-name format,
      inserted right after the original, and selected. The serializer's
      reads leave the original with its defaults cached. */
  function Duplicate(c: Configuration, format: NameFormat, firstDirectoryId: nat, nextPairId: nat,
                     normalized: DirectoryItem -> Option<string>): (r: Configuration)
    ensures SelectedItem(c).None? ==> r == c
    ensures SelectedItem(c).Some? ==>
              var i := c.selectedIndex as nat;
              && |r.items| == |c.items| + 1
              && r.items[..i] == c.items[..i] && r.items[i + 2..] == c.items[i + 1..]
              && r.items[i] == Serialized(c.items[i])
              && r.items[i + 1].name == Some(DuplicateName(format, c.items[i].name))
              && r.items[i + 1].guidInfo == c.items[i].guidInfo
              && SameValues(r.items[i + 1], c.items[i])
              && r.selectedIndex == i + 1
              && r == c.(items := r.items, selectedIndex := r.selectedIndex)
  {
    match SelectedItem(c)
    case None => c
    case Some(item) =>
      var i := c.selectedIndex as nat;
      var original := Serialized(item);
      var copy := XmlCopy(original, firstDirectoryId, nextPairId, normalized);
      var renamed := copy.(name := Some(DuplicateName(format, copy.name)));
      var touched := c.items[i := original];
      var items := touched[..i + 1] + [renamed] + touched[i + 1..];
      assert items[..i] == c.items[..i];
      assert items[i + 2..] == c.items[i + 1..];
      c.(items := items, selectedIndex := i + 1)
  }

  /** Inserting after position `i` and removing what was inserted gives
      back the list. */
  lemma InsertThenRemove(items: seq<ConfigurationItem>, i: nat, x: ConfigurationItem)
    requires i < |items|
    ensures RemoveAt(items[..i + 1] + [x] + items[i + 1..], i + 1) == items
  {
    var s := items[..i + 1] + [x] + items[i + 1..];
    assert s[..i + 1] == items[..i + 1] && s[i + 2..] == items[i + 1..];
  }

  /** The lookup finds the first match. */
  lemma FirstMatchIsFound(items: seq<ConfigurationItem>, g: GuidInfo, k: nat)
    requires k < |items| && EqualsObj(items[k].guidInfo, GuidObj(g))
    requires forall j :: 0 <= j < k ==> !EqualsObj(items[j].guidInfo, GuidObj(g))
    ensures FirstWithGuid(items, g) == Some(k)
  {
  }

  /** A list `s` that is `items` with one item inserted after position `i`,
      item `i` itself possibly replaced, both carrying the `GuidInfo` item
      `i` had. */
  predicate InsertedAfter(items: seq<ConfigurationItem>, s: seq<ConfigurationItem>, i: nat) {
    && i < |items| && |s| == |items| + 1
    && s[..i] == items[..i] && s[i + 2..] == items[i + 1..]
    && s[i].guidInfo == items[i].guidInfo && s[i + 1].guidInfo == items[i].guidInfo
  }

  /** Where each `GuidInfo` sits after such an insertion. */
  lemma InsertedGuids(items: seq<ConfigurationItem>, s: seq<ConfigurationItem>, i: nat)
    requires InsertedAfter(items, s, i)
    ensures forall k :: 0 <= k <= i ==> s[k].guidInfo == items[k].guidInfo
    ensures forall k :: i + 1 < k < |s| ==> s[k].guidInfo == items[k - 1].guidInfo
  {
    assert forall k :: 0 <= k < i ==> s[k] == s[..i][k];
    assert forall k :: i + 1 < k < |s| ==> s[k] == s[i + 2..][k - (i + 2)];
  }

  /** A lookup result `after` an insertion at `i + 1` relates to the one
      `before` it: nothing found stays nothing found, a position up to `i`
      stays, a later one moves up by one, and the inserted position is never
      the answer. */
  predicate Shifted(before: Option<nat>, after: Option<nat>, i: nat) {
    && (match before
        case None => after.None?
        case Some(k) => after == Some(if k <= i then k else k + 1))
    && after != Some(i + 1)
  }

  /** After inserting an item with the `GuidInfo` of item `i` right after
      it, a lookup finds what it found before, shifted past the inserted
      item, which is never found itself. */
  lemma LookupPastInsert(items: seq<ConfigurationItem>, s: seq<ConfigurationItem>, i: nat, g: GuidInfo)
    requires InsertedAfter(items, s, i)
    ensures var after := FirstWithGuid(s, g);
            Shifted(FirstWithGuid(items, g), after, i)
  {
    InsertedGuids(items, s, i);
    match FirstWithGuid(items, g)
    case None =>
    case Some(k) =>
      if k <= i {
        FirstMatchIsFound(s, g, k);
      } else {
        FirstMatchIsFound(s, g, k + 1);
      }
  }

  /** Removing the copy again gives back the list as it was, except that
      the original's defaults are now cached, which does not change what
      any of its settings reads. */
  lemma DuplicateThenRemove(c: Configuration, format: NameFormat, firstDirectoryId: nat, nextPairId: nat,
                            normalized: DirectoryItem -> Option<string>)
    requires SelectedItem(c).Some?
    ensures var i := c.selectedIndex as nat;
            var r := Duplicate(c, format, firstDirectoryId, nextPairId, normalized);
            && RemoveAt(r.items, i + 1) == c.items[i := Serialized(c.items[i])]
            && SameValues(RemoveAt(r.items, i + 1)[i], c.items[i])
  {
    var i := c.selectedIndex as nat;
    var r := Duplicate(c, format, firstDirectoryId, nextPairId, normalized);
    var t := c.items[i := Serialized(c.items[i])];
    assert r.items == t[..i + 1] + [r.items[i + 1]] + t[i + 1..];
    InsertThenRemove(t, i, r.items[i + 1]);
  }

  /** The copy is inserted right after the original and carries its
      `GuidInfo`. */
  lemma DuplicateInsertsAfter(c: Configuration, format: NameFormat, firstDirectoryId: nat, nextPairId: nat,
                              normalized: DirectoryItem -> Option<string>)
    requires SelectedItem(c).Some?
    ensures InsertedAfter(c.items, Duplicate(c, format, firstDirectoryId, nextPairId, normalized).items,
                          c.selectedIndex as nat)
  {
  }

  /** Looking up any `GuidInfo` after a duplication finds what it found
      before, shifted past the copy. The copy shares the original's
      `GuidInfo`, so a lookup never finds the copy: it finds the original. */
  lemma DuplicateLookup(c: Configuration, format: NameFormat, firstDirectoryId: nat, nextPairId: nat,
                        normalized: DirectoryItem -> Option<string>, g: GuidInfo)
    requires SelectedItem(c).Some?
    ensures var i := c.selectedIndex as nat;
            var after := FirstWithGuid(Duplicate(c, format, firstDirectoryId, nextPairId, normalized).items, g);
            Shifted(FirstWithGuid(c.items, g), after, i)
  {
    var i := c.selectedIndex as nat;
    var r := Duplicate(c, format, firstDirectoryId, nextPairId, normalized);
    DuplicateInsertsAfter(c, format, firstDirectoryId, nextPairId, normalized);
    LookupPastInsert(c.items, r.items, i, g);
  }

  // ---------------------------------------------------------------------
  // The settings windows

  /** An open settings window: the item it shows, whether it is visible,
      and whether it is minimized. */
  datatype SettingsWindow = SettingsWindow(item: ConfigurationItem, visible: bool, minimized: bool)

  datatype OpenAction = Activated | Shown

  /** `OpenConfigurationItemSettings`: the windows are kept by GUID. A
      visible window for the selected item's GUID is restored if minimized
      and activated; otherwise a new window showing the selected item is
      recorded under that GUID and shown. Without a selection nothing
      happens. */
  function OpenSettings(windows: map<Guid, SettingsWindow>, c: Configuration): (r: (map<Guid, SettingsWindow>, Option<OpenAction>))
    ensures SelectedItem(c).None? ==> r == (windows, None)
    ensures SelectedItem(c).Some? ==>
              var g := SelectedItem(c).value.guidInfo.guid;
              && r.1.Some?
              && (r.1 == Some(Activated) <==> g in windows && windows[g].visible)
              && g in r.0 && r.0[g].visible && !r.0[g].minimized
              && (r.1 == Some(Activated) ==> r.0[g].item == windows[g].item)
              && (r.1 == Some(Shown) ==> r.0[g].item == SelectedItem(c).value)
              && forall h :: h != g ==> (h in r.0 <==> h in windows) && (h in windows ==> r.0[h] == windows[h])
  {
    match SelectedItem(c)
    case None => (windows, None)
    case Some(item) =>
      var g := item.guidInfo.guid;
      if g in windows && windows[g].visible then
        (windows[g := windows[g].(minimized := false)], Some(Activated))
      else
        (windows[g := SettingsWindow(item, true, false)], Some(Shown))
  }

  /** Opening twice in a row: the second time only activates, and changes
      nothing more. */
  lemma OpenSettingsTwice(windows: map<Guid, SettingsWindow>, c: Configuration)
    requires SelectedItem(c).Some?
    ensures var once := OpenSettings(windows, c).0;
            OpenSettings(once, c) == (once, Some(Activated))
  {
    var g := SelectedItem(c).value.guidInfo.guid;
    var once := OpenSettings(windows, c).0;
    assert once[g := once[g].(minimized := false)] == once;
  }

  /** After a duplication, opening the settings of the selected copy while
      the original's window is visible activates that window, which shows
      the original, not the copy. */
  lemma DuplicateSharesSettingsWindow(c: Configuration, format: NameFormat, firstDirectoryId: nat, nextPairId: nat,
                                      normalized: DirectoryItem -> Option<string>, windows: map<Guid, SettingsWindow>)
    requires SelectedItem(c).Some?
    requires var g := SelectedItem(c).value.guidInfo.guid;
             g in windows && windows[g].visible
    ensures var d := Duplicate(c, format, firstDirectoryId, nextPairId, normalized);
            var g := SelectedItem(c).value.guidInfo.guid;
            && SelectedItem(d).Some? && SelectedItem(d).value.guidInfo.guid == g
            && OpenSettings(windows, d) == (windows[g := windows[g].(minimized := false)], Some(Activated))
  {
  }
}
