/** `ConfigurationItem`: one configuration, with its source and destination
    directory lists, the directory pairs built from them, its settings and
    the settings groups shown for them. */
module ConfigurationItems {
  import opened Wrappers
  import opened Text
  import opened Settings
  import opened Options
  import opened GuidInfos
  import opened DirectoryItems
  import opened DirectoryPairs

  /** A setting of the item, tagged by the property that holds it. */
  datatype AnySetting =
    | EnabledSetting(enabled: Setting<bool>)
    | LeftButNotRightSetting(leftButNotRight: Setting<NonExistingFileOptions>)
    | NewerOnLeftSetting(newerOnLeft: Setting<ExistingFileOptions>)
    | NewerOnRightSetting(newerOnRight: Setting<ExistingFileOptions>)
    | ExclusionsListSetting(exclusionsList: Setting<string>)
    | LockedFileOptionSetting(lockedFile: Setting<LockedFileOptions>)
    | FileViewOptionsSetting(fileView: Setting<FileViewOptions>)

  datatype SettingsGroup = SettingsGroup(name: string, settings: seq<AnySetting>)

  /** The settings that `FileCollection.cs`, `Configuration.cs` and
      `MainWindow.xaml.cs` read from an item but `ConfigurationItem.cs` does
      not declare. They take no part in the settings groups. */
  datatype ExtraSettings = ExtraSettings(
    includeDirectories: bool,
    inclusionPatterns: seq<string>,
    stopServiceMethod: StopServiceMethods,
    restartKilledProcesses: bool,
    nextConfiguration: Setting<GuidInfo>)

  datatype ConfigurationItem = ConfigurationItem(
    name: Option<string>,
    guidInfo: GuidInfo,
    sourceDirectories: seq<DirectoryItem>,
    destinationDirectories: seq<DirectoryItem>,
    /** The pairs kept up to date with the directory lists. */
    pairs: seq<DirectoryPair>,
    enabled: Setting<bool>,
    leftButNotRight: Setting<NonExistingFileOptions>,
    newerOnLeft: Setting<ExistingFileOptions>,
    newerOnRight: Setting<ExistingFileOptions>,
    exclusionsList: Setting<string>,
    lockedFile: Setting<LockedFileOptions>,
    fileView: Setting<FileViewOptions>,
    /** General, copy, locked-file and view settings, in that order. */
    groups: seq<SettingsGroup>,
    extra: ExtraSettings)

  const DefaultName: string := "New Configuration"

  // ---------------------------------------------------------------------
  // Settings groups

  /** Which of the four groups shows a setting. */
  function GroupOf(s: AnySetting): (g: nat)
    ensures g < 4
  {
    match s
    case EnabledSetting(_) => 0
    case LockedFileOptionSetting(_) => 2
    case FileViewOptionsSetting(_) => 3
    case _ => 1
  }

  /** Group `g` filled from the item's current settings. */
  function BuildGroup(item: ConfigurationItem, g: nat): SettingsGroup
    requires g < 4
  {
    if g == 0 then SettingsGroup("General", [EnabledSetting(item.enabled)])
    else if g == 1 then
      SettingsGroup("CopySettings",
        [LeftButNotRightSetting(item.leftButNotRight), NewerOnLeftSetting(item.newerOnLeft),
         NewerOnRightSetting(item.newerOnRight), ExclusionsListSetting(item.exclusionsList)])
    else if g == 2 then SettingsGroup("LockedFileSettings", [LockedFileOptionSetting(item.lockedFile)])
    else SettingsGroup("ViewSettings", [FileViewOptionsSetting(item.fileView)])
  }

  /** Every group shows the settings the item holds now. */
  predicate GroupsCurrent(item: ConfigurationItem) {
    |item.groups| == 4 && forall g :: 0 <= g < 4 ==> item.groups[g] == BuildGroup(item, g)
  }

  /** Each group holds exactly the settings that belong in it. */
  lemma GroupsPartitionSettings(item: ConfigurationItem, s: AnySetting)
    requires GroupsCurrent(item)
    requires s in [EnabledSetting(item.enabled), LeftButNotRightSetting(item.leftButNotRight),
                   NewerOnLeftSetting(item.newerOnLeft), NewerOnRightSetting(item.newerOnRight),
                   ExclusionsListSetting(item.exclusionsList), LockedFileOptionSetting(item.lockedFile),
                   FileViewOptionsSetting(item.fileView)]
    ensures s in item.groups[GroupOf(s)].settings
    ensures forall g :: 0 <= g < 4 && g != GroupOf(s) ==> s !in item.groups[g].settings
  {
    assert item.groups[0] == BuildGroup(item, 0);
    assert item.groups[1] == BuildGroup(item, 1);
    assert item.groups[2] == BuildGroup(item, 2);
    assert item.groups[3] == BuildGroup(item, 3);
  }

  /** Assigning a setting property: the property changes, and the handler
      rebuilds the group that shows it. */
  function ReplaceSetting(item: ConfigurationItem, s: AnySetting): (r: ConfigurationItem)
    requires |item.groups| == 4
    ensures |r.groups| == 4
    ensures r.groups[GroupOf(s)] == BuildGroup(r, GroupOf(s))
    ensures forall g :: 0 <= g < 4 && g != GroupOf(s) ==> r.groups[g] == item.groups[g]
    ensures r.pairs == item.pairs && r.sourceDirectories == item.sourceDirectories && r.destinationDirectories == item.destinationDirectories
  {
    var updated := match s
      case EnabledSetting(x) => item.(enabled := x)
      case LeftButNotRightSetting(x) => item.(leftButNotRight := x)
      case NewerOnLeftSetting(x) => item.(newerOnLeft := x)
      case NewerOnRightSetting(x) => item.(newerOnRight := x)
      case ExclusionsListSetting(x) => item.(exclusionsList := x)
      case LockedFileOptionSetting(x) => item.(lockedFile := x)
      case FileViewOptionsSetting(x) => item.(fileView := x);
    updated.(groups := item.groups[GroupOf(s) := BuildGroup(updated, GroupOf(s))])
  }

  /** Replacing a setting keeps every group current: the copy settings
      group always lists left-but-not-right, newer-on-left, newer-on-right
      and the exclusions list, in that order. */
  lemma ReplaceKeepsGroupsCurrent(item: ConfigurationItem, s: AnySetting)
    requires GroupsCurrent(item)
    ensures GroupsCurrent(ReplaceSetting(item, s))
    ensures var r := ReplaceSetting(item, s);
            r.groups[1].settings == [LeftButNotRightSetting(r.leftButNotRight), NewerOnLeftSetting(r.newerOnLeft),
                                     NewerOnRightSetting(r.newerOnRight), ExclusionsListSetting(r.exclusionsList)]
  {
    var r := ReplaceSetting(item, s);
    forall g | 0 <= g < 4 && g != GroupOf(s) ensures r.groups[g] == BuildGroup(r, g) {
      assert BuildGroup(r, g) == BuildGroup(item, g);
    }
  }

  // ---------------------------------------------------------------------
  // A new item

  /** A new item: the field initialisers of the settings and the groups the
      constructor builds. */
  function NewItem(guidInfo: GuidInfo, extra: ExtraSettings): (r: ConfigurationItem)
    ensures GroupsCurrent(r)
    ensures ValueOf(r.enabled) == true
    ensures ValueOf(r.leftButNotRight) == NonExistingFileOptions.Skip
    ensures ValueOf(r.newerOnLeft) == ExistingFileOptions.Replace
    ensures ValueOf(r.newerOnRight) == ExistingFileOptions.Skip
    ensures ValueOf(r.exclusionsList) == []
    ensures ValueOf(r.lockedFile) == LockedFileOptions.StopLockingProcesses
    ensures ValueOf(r.fileView) == FileViewOptions.ViewAllFiles
    ensures r.sourceDirectories == [] && r.destinationDirectories == [] && r.pairs == []
  {
    var item := ConfigurationItem(None, guidInfo, [], [], [],
      NewSetting(true), NewSetting(NonExistingFileOptions.Skip), NewSetting(ExistingFileOptions.Replace),
      NewSetting(ExistingFileOptions.Skip), NewSetting([]), NewSetting(LockedFileOptions.StopLockingProcesses),
      NewSetting(FileViewOptions.ViewAllFiles), [], extra);
    item.(groups := [BuildGroup(item, 0), BuildGroup(item, 1), BuildGroup(item, 2), BuildGroup(item, 3)])
  }

  // ---------------------------------------------------------------------
  // Directory pairs

  /** A previous pair stands for (source, destination) when its normalized
      paths equal theirs. `normalized` is the normalized resolved path of a
      directory. */
  predicate PairMatches(p: DirectoryPair, source: DirectoryItem, destination: DirectoryItem,
                        normalized: DirectoryItem -> Option<string>) {
    normalized(p.left) == normalized(source) && normalized(p.right) == normalized(destination)
  }

  /** The first previous pair that stands for (source, destination), if any. */
  function FindPair(previous: seq<DirectoryPair>, source: DirectoryItem, destination: DirectoryItem,
                    normalized: DirectoryItem -> Option<string>): (r: Option<DirectoryPair>)
    ensures r.None? <==> forall k :: 0 <= k < |previous| ==> !PairMatches(previous[k], source, destination, normalized)
    ensures r.Some? ==> exists k :: 0 <= k < |previous| && previous[k] == r.value && PairMatches(previous[k], source, destination, normalized)
                                    && forall j :: 0 <= j < k ==> !PairMatches(previous[j], source, destination, normalized)
    decreases |previous|
  {
    if |previous| == 0 then None
    else if PairMatches(previous[0], source, destination, normalized) then Some(previous[0])
    else
      var r := FindPair(previous[1..], source, destination, normalized);
      assert forall k :: 0 < k < |previous| ==> previous[k] == previous[1..][k - 1];
      r
  }

  /** The pair for (source, destination): an previous one reused, or a new one
      with identity `id`. */
  function PairFor(previous: seq<DirectoryPair>, source: DirectoryItem, destination: DirectoryItem,
                   normalized: DirectoryItem -> Option<string>, id: nat): DirectoryPair {
    match FindPair(previous, source, destination, normalized)
    case Some(p) => p
    case None => DirectoryPair(id, source, destination)
  }

  /** `Directories_CollectionChanged`: the pairs rebuilt source by source,
      destination by destination, reusing previous pairs. Position k holds
      source k / |destinations| against destination k % |destinations|, and
      a new pair there takes the identity nextId + k. */
  function PairUp(previous: seq<DirectoryPair>, sources: seq<DirectoryItem>, destinations: seq<DirectoryItem>,
                  normalized: DirectoryItem -> Option<string>, nextId: nat): (r: seq<DirectoryPair>)
    ensures |r| == |sources| * |destinations|
  {
    var n := |destinations|;
    seq(|sources| * n, k requires 0 <= k < |sources| * n =>
      SourceMajor(k, |sources|, n);
      PairFor(previous, sources[k / n], destinations[k % n], normalized, nextId + k))
  }

  /** Position k of an m × n grid is in row k / n and column k % n. */
  lemma SourceMajor(k: int, m: nat, n: nat)
    requires 0 <= k < m * n
    ensures n > 0 && 0 <= k / n < m && 0 <= k % n < n
  {
  }

  lemma {:induction false} MulStep(a: nat, b: nat, n: nat)
    ensures a < b ==> a * n + n <= b * n
    decreases b
  {
    if a < b {
      assert b * n == (b - 1) * n + n;
      MulStep(a, b - 1, n);
    }
  }

  /** The position of row i, column j of a grid n wide. */
  lemma RowColumn(i: nat, j: nat, n: nat)
    requires j < n
    ensures (i * n + j) / n == i && (i * n + j) % n == j
  {
    var k := i * n + j;
    var q := k / n;
    assert k == q * n + k % n;
    MulStep(q, i, n);
    MulStep(i, q, n);
  }

  /** Source i and destination j give position i·|destinations| + j. */
  lemma PairUpAt(previous: seq<DirectoryPair>, sources: seq<DirectoryItem>, destinations: seq<DirectoryItem>,
                 normalized: DirectoryItem -> Option<string>, nextId: nat, i: nat, j: nat)
    requires i < |sources| && j < |destinations|
    ensures i * |destinations| + j < |PairUp(previous, sources, destinations, normalized, nextId)|
    ensures PairUp(previous, sources, destinations, normalized, nextId)[i * |destinations| + j]
              == PairFor(previous, sources[i], destinations[j], normalized, nextId + i * |destinations| + j)
  {
    var n := |destinations|;
    RowColumn(i, j, n);
    assert i * n + j < |sources| * n by {
      assert i * n <= (|sources| - 1) * n;
      assert (|sources| - 1) * n + n == |sources| * n;
    }
  }

  /** Every pair stands for its source and destination. A previous pair is
      reused exactly when one stands for the same directories, and then it
      is the first such; otherwise the pair is new and holds the
      directories themselves. */
  lemma PairForMeaning(previous: seq<DirectoryPair>, source: DirectoryItem, destination: DirectoryItem,
                       normalized: DirectoryItem -> Option<string>, id: nat)
    ensures PairMatches(PairFor(previous, source, destination, normalized, id), source, destination, normalized)
    ensures (exists k :: 0 <= k < |previous| && PairMatches(previous[k], source, destination, normalized)) <==>
              PairFor(previous, source, destination, normalized, id) in previous
    ensures forall k :: 0 <= k < |previous| && PairMatches(previous[k], source, destination, normalized)
                        && (forall j :: 0 <= j < k ==> !PairMatches(previous[j], source, destination, normalized)) ==>
              PairFor(previous, source, destination, normalized, id) == previous[k]
    ensures (forall k :: 0 <= k < |previous| ==> !PairMatches(previous[k], source, destination, normalized)) ==>
              PairFor(previous, source, destination, normalized, id) == DirectoryPair(id, source, destination)
  {
    var r := PairFor(previous, source, destination, normalized, id);
    if r in previous {
      var k :| 0 <= k < |previous| && previous[k] == r;
      assert PairMatches(previous[k], source, destination, normalized);
    }
    forall k | 0 <= k < |previous| && PairMatches(previous[k], source, destination, normalized)
                && (forall j :: 0 <= j < k ==> !PairMatches(previous[j], source, destination, normalized))
      ensures r == previous[k]
    {
      var f := FindPair(previous, source, destination, normalized);
      var k' :| 0 <= k' < |previous| && previous[k'] == f.value && PairMatches(previous[k'], source, destination, normalized)
                && forall j :: 0 <= j < k' ==> !PairMatches(previous[j], source, destination, normalized);
    }
  }

  /** New pairs get identities no previous pair has, when the identities in use
      are all below `nextId`. */
  lemma NewPairsAreFresh(previous: seq<DirectoryPair>, sources: seq<DirectoryItem>, destinations: seq<DirectoryItem>,
                         normalized: DirectoryItem -> Option<string>, nextId: nat, i: nat, j: nat)
    requires forall k :: 0 <= k < |previous| ==> previous[k].id < nextId
    requires i < |sources| && j < |destinations|
    requires forall k :: 0 <= k < |previous| ==> !PairMatches(previous[k], sources[i], destinations[j], normalized)
    ensures var r := PairUp(previous, sources, destinations, normalized, nextId);
            && i * |destinations| + j < |r|
            && r[i * |destinations| + j].id >= nextId
            && r[i * |destinations| + j] !in previous
  {
    PairUpAt(previous, sources, destinations, normalized, nextId, i, j);
  }

  /** Changing the directory lists rebuilds the pairs. */
  function SetDirectories(item: ConfigurationItem, sources: seq<DirectoryItem>, destinations: seq<DirectoryItem>,
                          normalized: DirectoryItem -> Option<string>, nextId: nat): (r: ConfigurationItem)
    ensures r.sourceDirectories == sources && r.destinationDirectories == destinations
    ensures |r.pairs| == |sources| * |destinations|
  {
    item.(sourceDirectories := sources, destinationDirectories := destinations,
          pairs := PairUp(item.pairs, sources, destinations, normalized, nextId))
  }

  /** The pairs stand for the current lists: one pair per source and
      destination, source-major, each matching its two directories. */
  ghost predicate PairsCurrent(item: ConfigurationItem, normalized: DirectoryItem -> Option<string>) {
    PairsFor(item.pairs, item.sourceDirectories, item.destinationDirectories, normalized)
  }

  /** `pairs` holds one pair per source and destination, sources outer. */
  ghost predicate PairsFor(pairs: seq<DirectoryPair>, sources: seq<DirectoryItem>, destinations: seq<DirectoryItem>,
                           normalized: DirectoryItem -> Option<string>) {
    && |pairs| == |sources| * |destinations|
    && forall i, j :: 0 <= i < |sources| && 0 <= j < |destinations| ==> CellMatches(pairs, sources, destinations, normalized, i, j)
  }

  /** The pair at row `i`, column `j` stands for source `i` and destination `j`. */
  ghost predicate CellMatches(pairs: seq<DirectoryPair>, sources: seq<DirectoryItem>, destinations: seq<DirectoryItem>,
                              normalized: DirectoryItem -> Option<string>, i: nat, j: nat)
    requires i < |sources| && j < |destinations|
  {
    i * |destinations| + j < |pairs| && PairMatches(pairs[i * |destinations| + j], sources[i], destinations[j], normalized)
  }

  /** Whatever the pairs were before, changing the lists leaves them current. */
  lemma SetDirectoriesPairsCurrent(item: ConfigurationItem, sources: seq<DirectoryItem>, destinations: seq<DirectoryItem>,
                                   normalized: DirectoryItem -> Option<string>, nextId: nat)
    ensures PairsCurrent(SetDirectories(item, sources, destinations, normalized, nextId), normalized)
  {
    PairUpFor(item.pairs, sources, destinations, normalized, nextId);
  }

  /** The rebuilt pairs hold one pair per source and destination. */
  lemma PairUpFor(previous: seq<DirectoryPair>, sources: seq<DirectoryItem>, destinations: seq<DirectoryItem>,
                  normalized: DirectoryItem -> Option<string>, nextId: nat)
    ensures PairsFor(PairUp(previous, sources, destinations, normalized, nextId), sources, destinations, normalized)
  {
    var r := PairUp(previous, sources, destinations, normalized, nextId);
    forall i, j | 0 <= i < |sources| && 0 <= j < |destinations|
      ensures CellMatches(r, sources, destinations, normalized, i, j)
    {
      PairUpMatchesAt(previous, sources, destinations, normalized, nextId, i, j);
    }
  }

  lemma PairUpMatchesAt(previous: seq<DirectoryPair>, sources: seq<DirectoryItem>, destinations: seq<DirectoryItem>,
                        normalized: DirectoryItem -> Option<string>, nextId: nat, i: nat, j: nat)
    requires i < |sources| && j < |destinations|
    ensures CellMatches(PairUp(previous, sources, destinations, normalized, nextId), sources, destinations, normalized, i, j)
  {
    PairUpAt(previous, sources, destinations, normalized, nextId, i, j);
    PairForMeaning(previous, sources[i], destinations[j], normalized, nextId + i * |destinations| + j);
  }

  /** Every rebuilt pair is a previous one or has an identity from `nextId` on. */
  lemma PairUpReusesOrFresh(previous: seq<DirectoryPair>, sources: seq<DirectoryItem>, destinations: seq<DirectoryItem>,
                            normalized: DirectoryItem -> Option<string>, nextId: nat)
    ensures forall p :: p in PairUp(previous, sources, destinations, normalized, nextId) ==> p in previous || p.id >= nextId
  {
    var r := PairUp(previous, sources, destinations, normalized, nextId);
    var n := |destinations|;
    forall p | p in r ensures p in previous || p.id >= nextId {
      var k :| 0 <= k < |r| && r[k] == p;
      SourceMajor(k, |sources|, n);
      assert p == PairFor(previous, sources[k / n], destinations[k % n], normalized, nextId + k);
      var found := FindPair(previous, sources[k / n], destinations[k % n], normalized);
      if found.Some? {
        var q :| 0 <= q < |previous| && previous[q] == found.value
                 && PairMatches(previous[q], sources[k / n], destinations[k % n], normalized)
                 && forall j :: 0 <= j < q ==> !PairMatches(previous[j], sources[k / n], destinations[k % n], normalized);
      }
    }
  }

  /** `DirectoryPairs` property: the pairs when the item is enabled, none otherwise. */
  function EnabledPairs(item: ConfigurationItem): (r: seq<DirectoryPair>)
    ensures !ValueOf(item.enabled) ==> r == []
    ensures ValueOf(item.enabled) ==> r == item.pairs
  {
    if ValueOf(item.enabled) then item.pairs else []
  }

  /** `GenerateInitialDirectoryLists`: one empty source and one empty
      destination are added, each addition rebuilding the pairs. */
  function GenerateInitialDirectoryLists(item: ConfigurationItem, sourceId: nat, destinationId: nat,
                                         normalized: DirectoryItem -> Option<string>, nextId: nat): ConfigurationItem
  {
    var source := DirectoryItem(sourceId, Some([]));
    var destination := DirectoryItem(destinationId, Some([]));
    var withSource := SetDirectories(item, item.sourceDirectories + [source], item.destinationDirectories, normalized, nextId);
    SetDirectories(withSource, withSource.sourceDirectories, withSource.destinationDirectories + [destination],
                   normalized, nextId + |withSource.pairs|)
  }

  /** On a new item the initial lists give exactly one pair, of the empty
      source and the empty destination. */
  lemma InitialListsGiveOnePair(guidInfo: GuidInfo, extra: ExtraSettings, sourceId: nat, destinationId: nat,
                                normalized: DirectoryItem -> Option<string>, nextId: nat)
    ensures var r := GenerateInitialDirectoryLists(NewItem(guidInfo, extra), sourceId, destinationId, normalized, nextId);
            && r.sourceDirectories == [DirectoryItem(sourceId, Some([]))]
            && r.destinationDirectories == [DirectoryItem(destinationId, Some([]))]
            && |r.pairs| == 1
            && r.pairs[0].left == DirectoryItem(sourceId, Some([]))
            && r.pairs[0].right == DirectoryItem(destinationId, Some([]))
  {
    var source := DirectoryItem(sourceId, Some([]));
    var destination := DirectoryItem(destinationId, Some([]));
    var withSource := SetDirectories(NewItem(guidInfo, extra), [source], [], normalized, nextId);
    assert withSource.pairs == [];
    PairUpAt([], [source], [destination], normalized, nextId, 0, 0);
  }

  // ---------------------------------------------------------------------
  // Exclusion patterns

  /** `ExclusionListPatterns`: one pattern per non-empty line of the list;
      a null or empty list gives none. */
  function ExclusionPatterns(list: Option<string>): (r: seq<string>)
    ensures list.None? || list == Some([]) ==> r == []
    ensures forall i :: 0 <= i < |r| ==> |r[i]| > 0
    ensures forall i, j :: 0 <= i < |r| && 0 <= j < |r[i]| ==> !IsLineBreakChar(r[i][j])
    ensures list.Some? ==> Flatten(r) == StripLineBreaks(list.value)
    ensures list.Some? ==> r == RemoveEmpty(BreakPieces(list.value))
  {
    match list
    case None => []
    case Some(s) =>
      if |s| == 0 then []
      else
        LineBreaksNonEmpty();
        NonEmptyLines(s);
        RemoveEmpty(Split(s, LineBreaks))
  }

  lemma NonEmptyLines(s: string)
    ensures NonEmptySeparators(LineBreaks)
    ensures forall i, j :: 0 <= i < |RemoveEmpty(Split(s, LineBreaks))| && 0 <= j < |RemoveEmpty(Split(s, LineBreaks))[i]|
              ==> !IsLineBreakChar(RemoveEmpty(Split(s, LineBreaks))[i][j])
    ensures Flatten(RemoveEmpty(Split(s, LineBreaks))) == StripLineBreaks(s)
    ensures RemoveEmpty(Split(s, LineBreaks)) == RemoveEmpty(BreakPieces(s))
  {
    LineBreaksNonEmpty();
    SplitLineBreaks(s);
    var pieces := Split(s, LineBreaks);
    FlattenRemoveEmpty(pieces);
    SplitLineBreaksIsLines(s);
    var r := RemoveEmpty(pieces);
    assert forall i :: 0 <= i < |r| ==> r[i] in pieces;
  }

  /** The patterns of an item come from the current value of its exclusions
      list. */
  function ExclusionListPatterns(item: ConfigurationItem): (r: seq<string>)
    ensures Flatten(r) == StripLineBreaks(ValueOf(item.exclusionsList))
    ensures r == RemoveEmpty(BreakPieces(ValueOf(item.exclusionsList)))
  {
    ExclusionPatterns(Some(ValueOf(item.exclusionsList)))
  }

  /** The patterns of a list of lines are the non-empty lines. */
  lemma ExclusionPatternsOfLines(a: string, b: string)
    requires |a| > 0 && |b| > 0
    requires forall j :: 0 <= j < |a| ==> !IsLineBreakChar(a[j])
    requires forall j :: 0 <= j < |b| ==> !IsLineBreakChar(b[j])
    ensures ExclusionPatterns(Some(a + NewLine + b)) == [a, b]
  {
    LineBreaksNonEmpty();
    SplitTwoLines(a, b);
    assert |a + NewLine + b| > 0;
    assert ExclusionPatterns(Some(a + NewLine + b)) == RemoveEmpty(Split(a + NewLine + b, LineBreaks));
    assert RemoveEmpty([a, b]) == [a] + RemoveEmpty([b]) by {
      assert [a, b][1..] == [b];
    }
    assert RemoveEmpty([b]) == [b] + RemoveEmpty([]) by {
      assert [b][1..] == [];
    }
  }

  /** Two lines joined by a CR LF split back into the two lines. */
  lemma SplitTwoLines(a: string, b: string)
    requires forall j :: 0 <= j < |a| ==> !IsLineBreakChar(a[j])
    requires forall j :: 0 <= j < |b| ==> !IsLineBreakChar(b[j])
    ensures NonEmptySeparators(LineBreaks)
    ensures Split(a + NewLine + b, LineBreaks) == [a, b]
  {
    LineBreaksNonEmpty();
    var rest := NewLine + b;
    assert a + NewLine + b == a + rest;
    forall p | 0 <= p < |a| ensures MatchLength((a + rest)[p..], LineBreaks) == 0 {
      assert (a + rest)[p..][0] == a[p];
      LineBreakMatch((a + rest)[p..]);
    }
    SplitBeforeLineBreak(a, rest);
    SplitCrLf(b);
    assert a + [] == a;
  }

  /** A CR LF followed by a line splits into an empty piece and the line. */
  lemma SplitCrLf(b: string)
    requires forall j :: 0 <= j < |b| ==> !IsLineBreakChar(b[j])
    ensures NonEmptySeparators(LineBreaks)
    ensures Split(NewLine + b, LineBreaks) == [[], b]
  {
    LineBreaksNonEmpty();
    var s := NewLine + b;
    assert MatchLength(s, LineBreaks) == 2 by {
      assert s[..2] == "\r\n";
      assert s[..1] == "\r" by { assert s[0] == '\r'; }
      assert !StartsWith(s, "\n") by { assert "\r" != "\n"; }
      assert LineBreaks[1..][0] == "\r\n";
    }
    assert s[2..] == b;
    NoLineBreakSplit(b);
  }

  /** A piece without line breaks, followed by more text, splits off whole. */
  lemma {:induction false} SplitBeforeLineBreak(a: string, rest: string)
    requires NonEmptySeparators(LineBreaks)
    requires |rest| > 0 && IsLineBreakChar(rest[0])
    requires forall p :: 0 <= p < |a| ==> MatchLength((a + rest)[p..], LineBreaks) == 0
    ensures Split(a + rest, LineBreaks) == [a + Split(rest, LineBreaks)[0]] + Split(rest, LineBreaks)[1..]
    decreases |a|
  {
    if |a| == 0 {
      assert a + rest == rest;
      assert a + Split(rest, LineBreaks)[0] == Split(rest, LineBreaks)[0];
    } else {
      assert (a + rest)[0..] == a + rest;
      assert (a + rest)[1..] == a[1..] + rest;
      forall p | 0 <= p < |a[1..]| ensures MatchLength((a[1..] + rest)[p..], LineBreaks) == 0 {
        assert (a[1..] + rest)[p..] == (a + rest)[p + 1..];
      }
      SplitBeforeLineBreak(a[1..], rest);
      assert [a[0]] + (a[1..] + Split(rest, LineBreaks)[0]) == a + Split(rest, LineBreaks)[0];
    }
  }

  /** A string without line breaks is one piece. */
  lemma {:induction false} NoLineBreakSplit(s: string)
    requires NonEmptySeparators(LineBreaks)
    requires forall j :: 0 <= j < |s| ==> !IsLineBreakChar(s[j])
    ensures Split(s, LineBreaks) == [s]
    decreases |s|
  {
    if |s| > 0 {
      LineBreakMatch(s);
      NoLineBreakSplit(s[1..]);
      assert [s[0]] + s[1..] == s;
    }
  }

  // ---------------------------------------------------------------------
  // The policy the diff engine and the deployment read

  /** The item's settings as read at one moment. */
  function PolicyOf(item: ConfigurationItem): (r: Policy)
    ensures r.enabled == ValueOf(item.enabled) && r.lockedFile == ValueOf(item.lockedFile)
    ensures r.leftButNotRight == ValueOf(item.leftButNotRight)
    ensures r.newerOnLeft == ValueOf(item.newerOnLeft) && r.newerOnRight == ValueOf(item.newerOnRight)
    ensures r.fileView == ValueOf(item.fileView)
    ensures Flatten(r.exclusionPatterns) == StripLineBreaks(ValueOf(item.exclusionsList))
  {
    Policy(ValueOf(item.enabled), item.extra.includeDirectories, ValueOf(item.leftButNotRight),
           ValueOf(item.newerOnLeft), ValueOf(item.newerOnRight), ExclusionListPatterns(item),
           item.extra.inclusionPatterns, ValueOf(item.lockedFile), item.extra.stopServiceMethod,
           item.extra.restartKilledProcesses, ValueOf(item.fileView),
           ValueOf(item.extra.nextConfiguration), OptionSelected(item.extra.nextConfiguration))
  }
}
