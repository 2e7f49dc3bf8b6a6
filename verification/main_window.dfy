/** The configuration-list commands of the main window (previous, next,
    add, remove, move up, move down), the progress-details padding, and the
    deploy command that follows each configuration's "next configuration"
    setting from one deployment to the next. */
module MainWindowCommands {
  import opened Wrappers
  import opened Text
  import opened Decimal
  import opened Extensions
  import opened Sequences
  import opened Settings
  import opened GuidInfos
  import opened DirectoryItems
  import opened PathVariables
  import opened Services
  import opened ConfigurationItems
  import opened Configurations
  import opened Deployments
  import opened GuidLookup

  // ---------------------------------------------------------------------
  // Previous and next

  /** `PreviousConfigurationCommand`: the index moves back by one, but not
      below 0. */
  function Previous(c: Configuration): (r: Configuration)
    ensures r.items == c.items && r.pathVariables == c.pathVariables
    ensures r == c.(selectedIndex := r.selectedIndex)
    ensures r.selectedIndex >= 0
    ensures c.selectedIndex > 0 ==> r.selectedIndex == c.selectedIndex - 1
    ensures c.selectedIndex <= 0 ==> r.selectedIndex == 0
  {
    c.(selectedIndex := if c.selectedIndex - 1 > 0 then c.selectedIndex - 1 else 0)
  }

  /** `NextConfigurationCommand`: the index moves on by one, but not past
      the last item (on an empty list that is -1). */
  function Next(c: Configuration): (r: Configuration)
    ensures r == c.(selectedIndex := r.selectedIndex)
    ensures r.selectedIndex <= |c.items| - 1
    ensures c.selectedIndex < |c.items| - 1 ==> r.selectedIndex == c.selectedIndex + 1
    ensures c.selectedIndex >= |c.items| - 1 ==> r.selectedIndex == |c.items| - 1
  {
    c.(selectedIndex := if c.selectedIndex + 1 < |c.items| - 1 then c.selectedIndex + 1 else |c.items| - 1)
  }

  /** A selection inside the list stays inside it under both commands, and
      each undoes the other away from the ends. */
  lemma PreviousNextInverse(c: Configuration)
    requires 0 <= c.selectedIndex < |c.items|
    ensures 0 <= Previous(c).selectedIndex < |c.items|
    ensures 0 <= Next(c).selectedIndex < |c.items|
    ensures c.selectedIndex > 0 ==> Next(Previous(c)) == c
    ensures c.selectedIndex < |c.items| - 1 ==> Previous(Next(c)) == c
  {
  }

  /** At the ends the commands change nothing. */
  lemma PreviousNextAtEnds(c: Configuration)
    requires |c.items| > 0
    ensures c.selectedIndex == 0 ==> Previous(c) == c
    ensures c.selectedIndex == |c.items| - 1 ==> Next(c) == c
  {
  }

  // ---------------------------------------------------------------------
  // Add

  /** `AddConfigurationItem`: a new item with a generated default name and
      one empty source and destination is appended and selected. The new
      `GuidInfo`, the settings `ConfigurationItem.cs` does not declare, the
      new directories' identities and the path normalisation are
      parameters. A null name among the items fails the name generation. */
  function AddItem(c: Configuration, guidInfo: GuidInfo, extra: ExtraSettings, sourceId: nat, destinationId: nat,
                   normalized: DirectoryItem -> Option<string>, nextId: nat): (r: Result<Configuration, NameError>)
    ensures r.Failure? <==> exists i :: 0 <= i < |c.items| && c.items[i].name.None?
    ensures r.Success? ==>
              var n := GenerateNewName(ItemNames(c.items)).value;
              && |r.value.items| == |c.items| + 1
              && r.value.items[..|c.items|] == c.items
              && r.value.selectedIndex == |c.items|
              && SelectedItem(r.value) == Some(r.value.items[|c.items|])
              && r.value.items[|c.items|].name == Some(n)
              && r.value.items[|c.items|].guidInfo == guidInfo
              && r.value.pathVariables == c.pathVariables
  {
    var names := ItemNames(c.items);
    assert forall i :: 0 <= i < |c.items| ==> names[i] == c.items[i].name;
    match GenerateNewName(names)
    case Failure(e) => Failure(e)
    case Success(n) =>
      var item := GenerateInitialDirectoryLists(NewItem(guidInfo, extra).(name := Some(n)), sourceId, destinationId, normalized, nextId);
      var items := c.items + [item];
      assert items[..|c.items|] == c.items;
      Success(c.(items := items, selectedIndex := |items| - 1))
  }

  function ItemNames(items: seq<ConfigurationItem>): (r: seq<Option<string>>)
    ensures |r| == |items| && forall i :: 0 <= i < |items| ==> r[i] == items[i].name
  {
    seq(|items|, i requires 0 <= i < |items| => items[i].name)
  }

  /** The added item has a name no other item has, one pair of an empty
      source and an empty destination, and the default settings. */
  lemma AddedItemIsNew(c: Configuration, guidInfo: GuidInfo, extra: ExtraSettings, sourceId: nat, destinationId: nat,
                       normalized: DirectoryItem -> Option<string>, nextId: nat)
    requires forall i :: 0 <= i < |c.items| ==> c.items[i].name.Some?
    requires HighestDefault(NamesOf(ItemNames(c.items))) < Int32Max
    ensures var r := AddItem(c, guidInfo, extra, sourceId, destinationId, normalized, nextId);
            && r.Success?
            && (forall i :: 0 <= i < |c.items| ==> c.items[i].name != r.value.items[|c.items|].name)
            && |r.value.items[|c.items|].pairs| == 1
            && ValueOf(r.value.items[|c.items|].enabled)
  {
    var names := ItemNames(c.items);
    GeneratedNameIsNew(names);
    var n := GenerateNewName(names).value;
    InitialListsGiveOnePair(guidInfo, extra, sourceId, destinationId, normalized, nextId);
    NamedInitialLists(guidInfo, extra, n, sourceId, destinationId, normalized, nextId);
  }

  /** Naming the item before its lists are made changes only the name. */
  lemma NamedInitialLists(guidInfo: GuidInfo, extra: ExtraSettings, n: string, sourceId: nat, destinationId: nat,
                          normalized: DirectoryItem -> Option<string>, nextId: nat)
    ensures var named := GenerateInitialDirectoryLists(NewItem(guidInfo, extra).(name := Some(n)), sourceId, destinationId, normalized, nextId);
            var plain := GenerateInitialDirectoryLists(NewItem(guidInfo, extra), sourceId, destinationId, normalized, nextId);
            named == plain.(name := Some(n))
  {
  }

  // ---------------------------------------------------------------------
  // Remove

  /** One item's `NextConfigurationSetting` after the removal of the item
      with `GuidInfo` `removed`: reading `Value` caches the default, and a
      value equal to `removed` is set back to the default. Nothing else in
      the item changes. */
  function ClearReference(item: ConfigurationItem, removed: GuidInfo): (r: ConfigurationItem)
    ensures r == item.(extra := item.extra.(nextConfiguration := r.extra.nextConfiguration))
    ensures var before := item.extra.nextConfiguration;
            var after := r.extra.nextConfiguration;
            && ValueOf(after) == (if ValueOf(before) == removed then before.defaultValue else ValueOf(before))
            && after.defaultValue == before.defaultValue
            && OptionSelected(after) == OptionSelected(before)
  {
    var (value, cached) := ReadValue(item.extra.nextConfiguration);
    var setting := if value == removed then WriteValue(cached, cached.defaultValue) else cached;
    item.(extra := item.extra.(nextConfiguration := setting))
  }

  /** `RemoveConfigurationItem`: after the user confirms, every reference
      to the selected item is cleared, the item is deleted, and, when items
      remain, the one before it (or the first) is selected. */
  function RemoveItem(c: Configuration, confirmed: bool): (r: Configuration)
    ensures SelectedItem(c).None? || !confirmed ==> r == c
    ensures SelectedItem(c).Some? && confirmed ==>
              var i := c.selectedIndex;
              var g := c.items[i].guidInfo;
              && |r.items| == |c.items| - 1
              && (forall j :: 0 <= j < i ==> r.items[j] == ClearReference(c.items[j], g))
              && (forall j :: i <= j < |r.items| ==> r.items[j] == ClearReference(c.items[j + 1], g))
              && r.pathVariables == c.pathVariables
              && (|r.items| > 0 ==> r.selectedIndex == (if i - 1 > 0 then i - 1 else 0))
              && (|r.items| == 0 ==> r.selectedIndex == i)
  {
    match SelectedItem(c)
    case None => c
    case Some(selected) =>
      if !confirmed then c
      else
        var i := c.selectedIndex;
        var cleared := seq(|c.items|, j requires 0 <= j < |c.items| => ClearReference(c.items[j], selected.guidInfo));
        var items := cleared[..i] + cleared[i + 1..];
        assert forall j :: 0 <= j < i ==> items[j] == cleared[j];
        assert forall j :: i <= j < |items| ==> items[j] == cleared[j + 1];
        c.(items := items, selectedIndex := if |items| > 0 then (if i - 1 > 0 then i - 1 else 0) else i)
  }

  /** After a removal no remaining item names the removed one as its next
      configuration (unless that is the setting's default), the selection
      is inside the list when the list is not empty, and, when `GuidInfo`s
      are unique, the removed item can no longer be looked up. */
  lemma RemoveLeavesNoReference(c: Configuration)
    requires SelectedItem(c).Some?
    requires forall j, k :: 0 <= j < k < |c.items| ==> c.items[j].guidInfo != c.items[k].guidInfo
    ensures var r := RemoveItem(c, true);
            var g := c.items[c.selectedIndex].guidInfo;
            && (forall j :: 0 <= j < |r.items| ==>
                  ValueOf(r.items[j].extra.nextConfiguration) != g
                  || ValueOf(r.items[j].extra.nextConfiguration) == r.items[j].extra.nextConfiguration.defaultValue)
            && (|r.items| > 0 ==> 0 <= r.selectedIndex < |r.items|)
            && GetConfigurationItem(r.items, g).None?
  {
    var r := RemoveItem(c, true);
    var i := c.selectedIndex;
    var g := c.items[i].guidInfo;
    forall j | 0 <= j < |r.items| ensures r.items[j].guidInfo != g {
      if j < i {
        assert r.items[j].guidInfo == c.items[j].guidInfo;
      } else {
        assert r.items[j].guidInfo == c.items[j + 1].guidInfo;
      }
    }
  }

  // ---------------------------------------------------------------------
  // Move up and move down

  /** A command that throws leaves the list as it was at the throw. */
  datatype Thrown = ArgumentOutOfRange(state: Configuration)

  /** The list with the items at `i` and `i + 1` exchanged. */
  function Swap(items: seq<ConfigurationItem>, i: nat): (r: seq<ConfigurationItem>)
    requires i + 1 < |items|
    ensures |r| == |items| && multiset(r) == multiset(items)
    ensures r[i] == items[i + 1] && r[i + 1] == items[i]
    ensures forall j :: 0 <= j < |items| && j != i && j != i + 1 ==> r[j] == items[j]
  {
    var r := items[..i] + [items[i + 1], items[i]] + items[i + 2..];
    assert items == items[..i] + [items[i], items[i + 1]] + items[i + 2..];
    r
  }

  /** Taking out item `i + 1` and putting it back at `i` swaps the two. */
  lemma ReinsertBeforeIsSwap(items: seq<ConfigurationItem>, i: nat)
    requires i + 1 < |items|
    ensures RemoveAt(items, i + 1)[..i] + [items[i + 1]] + RemoveAt(items, i + 1)[i..] == Swap(items, i)
  {
    var removed := RemoveAt(items, i + 1);
    assert removed == items[..i + 1] + items[i + 2..];
    var r := removed[..i] + [items[i + 1]] + removed[i..];
    forall j | 0 <= j < |items| ensures r[j] == Swap(items, i)[j] {
      if j > i + 1 {
        assert r[j] == removed[j - 1] == items[j];
      }
    }
  }

  /** Taking out item `i` and putting it back at `i + 1` swaps the two. */
  lemma ReinsertAfterIsSwap(items: seq<ConfigurationItem>, i: nat)
    requires i + 1 < |items|
    ensures RemoveAt(items, i)[..i + 1] + [items[i]] + RemoveAt(items, i)[i + 1..] == Swap(items, i)
  {
    var removed := RemoveAt(items, i);
    assert removed == items[..i] + items[i + 1..];
    var r := removed[..i + 1] + [items[i]] + removed[i + 1..];
    forall j | 0 <= j < |items| ensures r[j] == Swap(items, i)[j] {
      if j < i + 1 {
        assert r[j] == removed[j];
      } else if j > i + 1 {
        assert r[j] == removed[j - 1] == items[j];
      }
    }
  }

  lemma SwapTwice(items: seq<ConfigurationItem>, i: nat)
    requires i + 1 < |items|
    ensures Swap(Swap(items, i), i) == items
  {
  }

  /** `MoveConfigurationItemUp`: with more than one item and an index above
      0, the selected item is taken out and put back one place earlier, and
      the selection follows it (`IndexOf` finds the moved object). An index
      past the end throws when the item is read. */
  function MoveUp(c: Configuration): (r: Result<Configuration, Thrown>)
    ensures !(|c.items| > 1 && c.selectedIndex > 0) ==> r == Success(c)
    ensures |c.items| > 1 && c.selectedIndex >= |c.items| ==> r == Failure(ArgumentOutOfRange(c))
    ensures |c.items| > 1 && 0 < c.selectedIndex < |c.items| ==>
              && r == Success(c.(items := Swap(c.items, c.selectedIndex - 1), selectedIndex := c.selectedIndex - 1))
              && r.value.items[r.value.selectedIndex] == c.items[c.selectedIndex]
  {
    if |c.items| > 1 && c.selectedIndex > 0 then
      var i := c.selectedIndex;
      if i >= |c.items| then Failure(ArgumentOutOfRange(c))
      else
        var item := c.items[i];
        var removed := RemoveAt(c.items, i);
        var items := removed[..i - 1] + [item] + removed[i - 1..];
        ReinsertBeforeIsSwap(c.items, i - 1);
        Success(c.(items := items, selectedIndex := i - 1))
    else Success(c)
  }

  /** `MoveConfigurationItemDown` as the source writes it: the guard admits
      every index below the count, including the last one and -1. Reading
      the item at -1 throws before anything changes; at the last index the
      item is removed and the insertion one place after it is out of range,
      so the item is gone from the list when the exception is thrown. */
  function MoveDownAsWritten(c: Configuration): (r: Result<Configuration, Thrown>)
    ensures !(|c.items| > 1 && c.selectedIndex < |c.items|) ==> r == Success(c)
  {
    if |c.items| > 1 && c.selectedIndex < |c.items| then
      var i := c.selectedIndex;
      if i < 0 then Failure(ArgumentOutOfRange(c))
      else
        var item := c.items[i];
        var removed := RemoveAt(c.items, i);
        if i + 1 > |removed| then Failure(ArgumentOutOfRange(c.(items := removed)))
        else
          var items := removed[..i + 1] + [item] + removed[i + 1..];
          Success(c.(items := items, selectedIndex := i + 1))
    else Success(c)
  }

  /** With the last of two or more items selected, the written command
      throws after dropping the selected item. */
  lemma MoveDownLosesLastItem(c: Configuration)
    requires |c.items| > 1 && c.selectedIndex == |c.items| - 1
    ensures MoveDownAsWritten(c).Failure?
    ensures MoveDownAsWritten(c).error.state.items == c.items[..|c.items| - 1]
    ensures c.items[|c.items| - 1] !in multiset(MoveDownAsWritten(c).error.state.items)
            || c.items[|c.items| - 1] in c.items[..|c.items| - 1]
  {
    var n := |c.items|;
    assert c.items[..n - 1] + c.items[n..] == c.items[..n - 1];
  }

  /** The two-item list with the second selected: the move down throws and
      leaves only the first item. */
  lemma MoveDownCounterexample(a: ConfigurationItem, b: ConfigurationItem, c: Configuration)
    requires c.items == [a, b] && c.selectedIndex == 1
    ensures MoveDownAsWritten(c) == Failure(ArgumentOutOfRange(c.(items := [a])))
  {
    MoveDownLosesLastItem(c);
    assert c.items[..1] == [a];
  }

  /** `MoveConfigurationItemDown` with the guard the command evidently
      intends, `0 <= i < Count - 1`: the selected item moves one place
      later and the selection follows it; otherwise nothing changes. */
  function MoveDown(c: Configuration): (r: Configuration)
    ensures !(|c.items| > 1 && 0 <= c.selectedIndex < |c.items| - 1) ==> r == c
    ensures |c.items| > 1 && 0 <= c.selectedIndex < |c.items| - 1 ==>
              && r == c.(items := Swap(c.items, c.selectedIndex), selectedIndex := c.selectedIndex + 1)
              && r.items[r.selectedIndex] == c.items[c.selectedIndex]
  {
    if |c.items| > 1 && 0 <= c.selectedIndex < |c.items| - 1 then
      var i := c.selectedIndex;
      var item := c.items[i];
      var removed := RemoveAt(c.items, i);
      var items := removed[..i + 1] + [item] + removed[i + 1..];
      ReinsertAfterIsSwap(c.items, i);
      c.(items := items, selectedIndex := i + 1)
    else c
  }

  /** Wherever the written guard does not misfire, the written command and
      the corrected one agree. */
  lemma MoveDownAgrees(c: Configuration)
    requires !(|c.items| > 1 && (c.selectedIndex < 0 || c.selectedIndex == |c.items| - 1))
    ensures MoveDownAsWritten(c) == Success(MoveDown(c))
  {
  }

  /** Moving down and then up restores the list and the selection. */
  lemma MoveDownThenUp(c: Configuration)
    requires |c.items| > 1 && 0 <= c.selectedIndex < |c.items| - 1
    ensures MoveUp(MoveDown(c)) == Success(c)
  {
    var i := c.selectedIndex;
    var d := MoveDown(c);
    SwapTwice(c.items, i);
    assert d.items == Swap(c.items, i) && d.selectedIndex == i + 1;
    assert MoveUp(d) == Success(d.(items := Swap(d.items, i), selectedIndex := i));
  }

  /** Moving up and then down restores the list and the selection. */
  lemma MoveUpThenDown(c: Configuration)
    requires |c.items| > 1 && 0 < c.selectedIndex < |c.items|
    ensures MoveUp(c).Success? && MoveDown(MoveUp(c).value) == c
  {
    var i := c.selectedIndex;
    var u := MoveUp(c).value;
    SwapTwice(c.items, i - 1);
    assert u.items == Swap(c.items, i - 1) && u.selectedIndex == i - 1;
    assert MoveDown(u) == u.(items := Swap(u.items, i - 1), selectedIndex := i);
  }

  // ---------------------------------------------------------------------
  // Progress details

  /** `k` line breaks. */
  function LineBreaksOf(k: nat): string
  {
    if k == 0 then [] else LineBreaksOf(k - 1) + NewLine
  }

  /** One more line break adds one line. */
  lemma PadStep(details: string, k: nat)
    ensures details + LineBreaksOf(k) + NewLine == details + LineBreaksOf(k + 1)
    ensures |Lines(details + LineBreaksOf(k + 1), false)| == |Lines(details + LineBreaksOf(k), false)| + 1
  {
    assert details + LineBreaksOf(k) + NewLine == details + (LineBreaksOf(k) + NewLine);
    LinesAppendNewLine(details + LineBreaksOf(k));
  }

  /** The progress handler's padding: line breaks are appended until the
      details have at least three lines. */
  method PadDetails(details: string) returns (r: string)
    ensures |Lines(r, false)| == if |Lines(details, false)| < 3 then 3 else |Lines(details, false)|
    ensures |Lines(details, false)| >= 3 ==> r == details
    ensures |Lines(details, false)| < 3 ==> r == details + LineBreaksOf(3 - |Lines(details, false)|)
  {
    var n := |Lines(details, false)|;
    r := details;
    var i := n;
    while i < 3
      invariant n <= i && (n < 3 ==> i <= 3) && (n >= 3 ==> i == n)
      invariant |Lines(r, false)| == i
      invariant r == details + LineBreaksOf(i - n)
    {
      PadStep(details, i - n);
      r := r + NewLine;
      i := i + 1;
    }
  }

  // ---------------------------------------------------------------------
  // Deploy, following the "next configuration" chain

  /** What one turn of the deploy loop meets: the per-file situation and
      the restart oracles `Configuration.Deploy` takes, and whether the
      user has requested cancellation by the end of the turn. */
  datatype Turn = Turn(
    scenario: nat -> FileScenario,
    stoppedNow: nat -> bool,
    startThrows: nat -> bool,
    launchThrows: string -> bool,
    cancelRequested: bool)

  predicate IsFailedAction(a: Action) {
    a.ActionFailed?
  }

  predicate IsFailedRestart(e: RestartEvent) {
    e.StartFailed? || e.LaunchFailed?
  }

  /** The errors one deployment reports through `errorProgress`: the files
      that failed, the service actions that threw, and the restarts that
      threw. None is reported exactly when nothing failed. */
  function ReportedErrors(run: DeployRun): (r: nat)
    ensures r >= |run.state.errors|
    ensures r == 0 <==> |run.state.errors| == 0
                        && (forall a :: a in run.state.effects.serviceActions ==> !IsFailedAction(a))
                        && (forall e :: e in run.restarts ==> !IsFailedRestart(e))
  {
    var failedActions := Keep(run.state.effects.serviceActions, IsFailedAction);
    var failedRestarts := Keep(run.restarts, IsFailedRestart);
    assert |failedActions| > 0 ==> failedActions[0] in failedActions;
    assert |failedRestarts| > 0 ==> failedRestarts[0] in failedRestarts;
    |run.state.errors| + CountWhere(run.state.effects.serviceActions, IsFailedAction)
    + CountWhere(run.restarts, IsFailedRestart)
  }

  /** The configuration deployed after item `k`: the first item with the
      `GuidInfo` of `k`'s next-configuration setting, when that option is
      selected. Outside the list there is none. */
  function NextToDeploy(items: seq<ConfigurationItem>, k: nat): (r: Option<nat>)
    ensures r.Some? ==> r.value < |items|
    ensures r.Some? ==> k < |items| && OptionSelected(items[k].extra.nextConfiguration)
                        && items[r.value].guidInfo == ValueOf(items[k].extra.nextConfiguration)
    ensures k < |items| && OptionSelected(items[k].extra.nextConfiguration) ==>
              (r.None? <==> forall i :: 0 <= i < |items| ==> items[i].guidInfo != ValueOf(items[k].extra.nextConfiguration))
  {
    if k < |items| && OptionSelected(items[k].extra.nextConfiguration) then
      FirstWithGuid(items, ValueOf(items[k].extra.nextConfiguration))
    else None
  }

  /** Selecting item `k` of `c` and preparing its deployment. */
  function PrepareAt(c: Configuration, env: Environment, k: nat): Result<Option<DeploymentItem>, PathError> {
    PrepareDeployment(c.(selectedIndex := k), env)
  }

  /** Item `k` of `c` has pending files when it is selected. */
  predicate HasFiles(c: Configuration, env: Environment, k: nat) {
    match PrepareAt(c, env, k)
    case Success(Some(item)) => |item.filesToCopy| > 0
    case _ => false
  }

  /** Item `k` of `c` prepares without an unhandled error when selected. */
  predicate Prepares(c: Configuration, env: Environment, k: nat) {
    PrepareAt(c, env, k).Success?
  }

  /** The unhandled error preparing item `k` raises, if any. */
  function RaisedAt(c: Configuration, env: Environment, k: nat): (r: Option<PathError>)
    ensures r.None? <==> Prepares(c, env, k)
  {
    match PrepareAt(c, env, k)
    case Failure(e) => Some(e)
    case Success(_) => None
  }

  /** The errors deploying item `k` on a turn reports (none when it is not
      deployed). */
  function ErrorsAt(c: Configuration, env: Environment, k: nat, turn: Turn): (r: nat)
    ensures !HasFiles(c, env, k) ==> r == 0
  {
    match PrepareAt(c, env, k)
    case Success(Some(item)) =>
      if |item.filesToCopy| > 0 then
        ReportedErrors(Deploy(item, turn.scenario, turn.stoppedNow, turn.startThrows, turn.launchThrows))
      else 0
    case _ => 0
  }

  /** What the deploy loop consults on each turn, by item position `k` and
      turn number `t`: the next item, the unhandled error preparing `k`
      raises, whether `k` has files to deploy, the errors deploying it
      reports, and whether cancellation was requested by the end of the
      turn. */
  datatype Loop = Loop(
    next: nat -> Option<nat>,
    raised: nat -> Option<PathError>,
    hasFiles: nat -> bool,
    errorsAt: (nat, nat) -> nat,
    cancelled: nat -> bool)

  /** The loop of the main window's deploy handler for configuration `c`.
      Selecting an item changes only the selected index, which no lookup
      reads, so `c` is the configuration of every turn. */
  function LoopOf(c: Configuration, env: Environment, turns: nat -> Turn): Loop {
    Loop((k: nat) => NextToDeploy(c.items, k),
         (k: nat) => RaisedAt(c, env, k),
         (k: nat) => HasFiles(c, env, k),
         (k: nat, t: nat) => ErrorsAt(c, env, k, turns(t)),
         (t: nat) => turns(t).cancelRequested)
  }

  /** An item with files to deploy is one that prepared. */
  ghost predicate Coherent(loop: Loop) {
    forall k: nat :: loop.hasFiles(k) ==> loop.raised(k).None?
  }

  /** The handler's loop is coherent: only a prepared item has files. */
  lemma LoopOfCoherent(c: Configuration, env: Environment, turns: nat -> Turn)
    ensures Coherent(LoopOf(c, env, turns))
  {
    var loop := LoopOf(c, env, turns);
    forall k: nat | loop.hasFiles(k) ensures loop.raised(k).None? {
      assert HasFiles(c, env, k);
    }
  }

  /** Why the loop stopped. `Unhandled` is an exception out of
      `PrepareDeployment` (an unresolvable right path), which ends the
      handler before its last two assignments. `OutOfFuel` is the model's
      bound on the number of turns. */
  datatype ChainOutcome = Finished | Cancelled | Unhandled(error: PathError) | OutOfFuel

  /** The positions selected, in turn order; those actually deployed; the
      number of errors reported; and how the loop ended. */
  datatype Chain = Chain(visited: seq<nat>, deployed: seq<nat>, errors: nat, outcome: ChainOutcome)

  /** The deploy loop from turn `t`, which deploys `toDeploy`: prepare it
      (an error ends the handler), deploy it when it has files, stop when
      cancellation was requested, otherwise go on with the next item. */
  function RunChain(loop: Loop, toDeploy: Option<nat>, t: nat, fuel: nat): (r: Chain)
    ensures |r.visited| <= fuel
    ensures toDeploy.None? ==> r == Chain([], [], 0, Finished)
    ensures toDeploy.Some? && fuel > 0 ==> |r.visited| > 0 && r.visited[0] == toDeploy.value
    decreases fuel
  {
    if toDeploy.None? then Chain([], [], 0, Finished)
    else if fuel == 0 then Chain([], [], 0, OutOfFuel)
    else
      var k := toDeploy.value;
      match loop.raised(k)
      case Some(e) => Chain([k], [], 0, Unhandled(e))
      case None =>
        var deployHere := loop.hasFiles(k);
        var errors := if deployHere then loop.errorsAt(k, t) else 0;
        var rest := if loop.cancelled(t) then Chain([], [], 0, Cancelled)
                    else RunChain(loop, loop.next(k), t + 1, fuel - 1);
        Chain([k] + rest.visited, (if deployHere then [k] else []) + rest.deployed, errors + rest.errors, rest.outcome)
  }

  /** After the first item, the loop goes from each item to the one `next`
      names; when it ends normally, the last item names none. */
  lemma {:induction false} ChainFollowsNext(loop: Loop, toDeploy: Option<nat>, t: nat, fuel: nat)
    ensures var r := RunChain(loop, toDeploy, t, fuel);
            && (forall j :: 0 <= j < |r.visited| - 1 ==> loop.next(r.visited[j]) == Some(r.visited[j + 1]))
            && (r.outcome == Finished && |r.visited| > 0 ==> loop.next(r.visited[|r.visited| - 1]).None?)
    decreases fuel
  {
    if toDeploy.Some? && fuel > 0 {
      var k := toDeploy.value;
      var r := RunChain(loop, toDeploy, t, fuel);
      if loop.raised(k).None? && !loop.cancelled(t) {
        var next := loop.next(k);
        ChainFollowsNext(loop, next, t + 1, fuel - 1);
        var rest := RunChain(loop, next, t + 1, fuel - 1);
        assert r.visited == [k] + rest.visited && r.outcome == rest.outcome;
        forall j | 0 <= j < |r.visited| - 1
          ensures loop.next(r.visited[j]) == Some(r.visited[j + 1])
        {
          if j > 0 {
            assert r.visited[j] == rest.visited[j - 1] && r.visited[j + 1] == rest.visited[j];
          }
        }
      }
    }
  }

  /** When `next` stays below `bound`, so does every visited position. */
  lemma {:induction false} ChainStaysInRange(loop: Loop, toDeploy: Option<nat>, t: nat, fuel: nat, bound: nat)
    requires toDeploy.Some? ==> toDeploy.value < bound
    requires forall k :: loop.next(k).Some? ==> loop.next(k).value < bound
    ensures forall j :: 0 <= j < |RunChain(loop, toDeploy, t, fuel).visited| ==> RunChain(loop, toDeploy, t, fuel).visited[j] < bound
    decreases fuel
  {
    if toDeploy.Some? && fuel > 0 {
      var k := toDeploy.value;
      if loop.raised(k).None? && !loop.cancelled(t) {
        ChainStaysInRange(loop, loop.next(k), t + 1, fuel - 1, bound);
        var rest := RunChain(loop, loop.next(k), t + 1, fuel - 1);
        var r := RunChain(loop, toDeploy, t, fuel);
        assert r.visited == [k] + rest.visited;
        forall j | 1 <= j < |r.visited| ensures r.visited[j] < bound {
          assert r.visited[j] == rest.visited[j - 1];
        }
      }
    }
  }

  /** The positions of `ks` that `p` holds of, in order. */
  function Filter(p: nat -> bool, ks: seq<nat>): (r: seq<nat>)
    ensures forall k :: k in r <==> k in ks && p(k)
    decreases |ks|
  {
    if |ks| == 0 then []
    else (if p(ks[0]) then [ks[0]] else []) + Filter(p, ks[1..])
  }

  /** Exactly the visited items with files are deployed, in turn order;
      when none is deployed no error is reported. */
  lemma {:induction false} ChainDeploysPending(loop: Loop, toDeploy: Option<nat>, t: nat, fuel: nat)
    requires Coherent(loop)
    ensures var r := RunChain(loop, toDeploy, t, fuel);
            && r.deployed == Filter(loop.hasFiles, r.visited)
            && (r.deployed == [] ==> r.errors == 0)
    decreases fuel
  {
    if toDeploy.Some? && fuel > 0 {
      var k := toDeploy.value;
      var r := RunChain(loop, toDeploy, t, fuel);
      if loop.raised(k).Some? {
        assert r.visited == [k] && r.deployed == [];
        assert !loop.hasFiles(k);
        assert [k][1..] == [];
      } else {
        var rest := if loop.cancelled(t) then Chain([], [], 0, Cancelled)
                    else RunChain(loop, loop.next(k), t + 1, fuel - 1);
        if !loop.cancelled(t) {
          ChainDeploysPending(loop, loop.next(k), t + 1, fuel - 1);
        }
        var here := if loop.hasFiles(k) then [k] else [];
        assert r.visited == [k] + rest.visited;
        assert r.deployed == here + rest.deployed;
        assert ([k] + rest.visited)[1..] == rest.visited;
        assert Filter(loop.hasFiles, r.visited) == here + Filter(loop.hasFiles, rest.visited);
      }
    }
  }

  /** The turns of `r`, from turn `t`: every turn but the last prepared and
      was not cancelled; `r` ends with an unhandled error exactly when its
      last item raised one, and with cancellation only when its last turn
      was cancelled. */
  ghost predicate StopsOnlyAtEnd(loop: Loop, t: nat, r: Chain) {
    && (forall j :: 0 <= j < |r.visited| - 1 ==> loop.raised(r.visited[j]).None? && !loop.cancelled(t + j))
    && (r.outcome.Unhandled? <==> |r.visited| > 0 && loop.raised(r.visited[|r.visited| - 1]).Some?)
    && (r.outcome == Cancelled ==> |r.visited| > 0 && loop.cancelled(t + |r.visited| - 1))
  }

  /** Every turn but the last prepared and was not cancelled; the loop
      ends with an unhandled error exactly when the last item raised one,
      and with cancellation only when the last turn was cancelled. */
  lemma {:induction false} ChainStops(loop: Loop, toDeploy: Option<nat>, t: nat, fuel: nat)
    ensures StopsOnlyAtEnd(loop, t, RunChain(loop, toDeploy, t, fuel))
    decreases fuel
  {
    if toDeploy.Some? && fuel > 0 {
      var k := toDeploy.value;
      var r := RunChain(loop, toDeploy, t, fuel);
      if loop.raised(k).None? && !loop.cancelled(t) {
        ChainStops(loop, loop.next(k), t + 1, fuel - 1);
        var rest := RunChain(loop, loop.next(k), t + 1, fuel - 1);
        assert r.visited == [k] + rest.visited && r.outcome == rest.outcome;
        forall j | 0 <= j < |r.visited| - 1
          ensures loop.raised(r.visited[j]).None? && !loop.cancelled(t + j)
        {
          if j > 0 {
            assert r.visited[j] == rest.visited[j - 1];
            assert t + j == (t + 1) + (j - 1);
          }
        }
        if |rest.visited| > 0 {
          assert r.visited[|r.visited| - 1] == rest.visited[|rest.visited| - 1];
          assert t + |r.visited| - 1 == (t + 1) + |rest.visited| - 1;
        }
      }
    }
  }

  /** There is no cycle guard: an item that names itself as next, prepares,
      and is never cancelled is visited again on every turn until the
      model's bound runs out. */
  lemma {:induction false} SelfReferenceNeverStops(loop: Loop, k: nat, t: nat, fuel: nat)
    requires loop.next(k) == Some(k) && loop.raised(k).None?
    requires forall j :: t <= j ==> !loop.cancelled(j)
    ensures var r := RunChain(loop, Some(k), t, fuel);
            && r.outcome == OutOfFuel
            && |r.visited| == fuel
            && forall j :: 0 <= j < fuel ==> r.visited[j] == k
    decreases fuel
  {
    if fuel > 0 {
      SelfReferenceNeverStops(loop, k, t + 1, fuel - 1);
      var rest := RunChain(loop, Some(k), t + 1, fuel - 1);
      assert RunChain(loop, Some(k), t, fuel).visited == [k] + rest.visited;
    }
  }

  /** One token source serves the whole command and is never reset: once
      a file of a turn sees cancellation, every later file of that turn
      sees it, the turn ends with cancellation requested, and every later
      turn ends with it requested too. */
  ghost predicate CancellationSticks(turns: nat -> Turn) {
    && (forall t: nat, i: nat :: turns(t).scenario(i).cancelled ==>
          turns(t).cancelRequested && turns(t).scenario(i + 1).cancelled)
    && (forall t: nat :: turns(t).cancelRequested ==> turns(t + 1).cancelRequested)
  }

  /** With one sticky token, a turn whose deployment saw cancellation is the
      last: the loop stops there, cancelled, whatever item comes next. */
  lemma CancelSeenEndsChain(c: Configuration, env: Environment, turns: nat -> Turn, k: nat, t: nat, fuel: nat, i: nat)
    requires CancellationSticks(turns)
    requires fuel > 0 && Prepares(c, env, k)
    requires turns(t).scenario(i).cancelled
    ensures var r := RunChain(LoopOf(c, env, turns), Some(k), t, fuel);
            r.visited == [k] && r.outcome == Cancelled
  {
    assert turns(t).cancelRequested;
  }

  /** With one sticky token, no turn after a cancelled one goes on. */
  lemma {:induction false} CancellationStaysRequested(turns: nat -> Turn, t: nat, u: nat)
    requires CancellationSticks(turns)
    requires t <= u && turns(t).cancelRequested
    ensures turns(u).cancelRequested
    decreases u - t
  {
    if t < u {
      CancellationStaysRequested(turns, t, u - 1);
    }
  }

  /** The main window's state the deploy command reads and sets. */
  datatype Window = Window(configuration: Configuration, deployInProgress: bool, isBusy: bool)

  /** Each turn selects the configuration it deploys, so the selection
      ends on the last one visited. */
  function SelectLast(c: Configuration, visited: seq<nat>): (r: Configuration)
    ensures r == c.(selectedIndex := r.selectedIndex)
    ensures |visited| > 0 ==> r.selectedIndex == visited[|visited| - 1]
    ensures |visited| == 0 ==> r == c
  {
    if |visited| > 0 then c.(selectedIndex := visited[|visited| - 1]) else c
  }

  /** `Deploy`: ignored while a deployment is in progress; otherwise the
      loop runs from the selected item, the last visited item stays
      selected, and at the end the dialog stays open exactly when errors
      were reported and the configuration does not close it on errors. An
      unhandled exception leaves the flags as the handler set them at its
      start. */
  function DeployCommand(w: Window, env: Environment, turns: nat -> Turn, fuel: nat): (r: (Window, Chain))
    ensures w.deployInProgress ==> r.0 == w
    ensures !w.deployInProgress && !r.1.outcome.Unhandled? ==>
              && !r.0.deployInProgress
              && (r.0.isBusy <==> r.1.errors > 0 && !w.configuration.closeDialogOnErrors)
    ensures !w.deployInProgress && r.1.outcome.Unhandled? ==> r.0.deployInProgress && r.0.isBusy
    ensures r.0.configuration == w.configuration.(selectedIndex := r.0.configuration.selectedIndex)
    ensures |r.1.visited| > 0 ==> r.0.configuration.selectedIndex == r.1.visited[|r.1.visited| - 1]
    ensures !w.deployInProgress && SelectedItem(w.configuration).None? ==> r.1.visited == [] && !r.0.isBusy
  {
    if w.deployInProgress then (w, Chain([], [], 0, Finished))
    else
      var c := w.configuration;
      var start := if SelectedItem(c).Some? then Some(c.selectedIndex as nat) else None;
      var chain := RunChain(LoopOf(c, env, turns), start, 0, fuel);
      var final := SelectLast(c, chain.visited);
      if chain.outcome.Unhandled? then (Window(final, true, true), chain)
      else (Window(final, false, chain.errors > 0 && !c.closeDialogOnErrors), chain)
  }

  /** From the selected item, the command visits the chain of next
      configurations, keeps the selection inside the list, deploys exactly
      the visited items with pending files, and stops on an unhandled error
      exactly when the last visited item fails to prepare. */
  lemma DeployFollowsChain(w: Window, env: Environment, turns: nat -> Turn, fuel: nat, k: nat)
    requires !w.deployInProgress && SelectedItem(w.configuration).Some? && fuel > 0
    ensures var (w', chain) := DeployCommand(w, env, turns, fuel);
            && |chain.visited| > 0 && chain.visited[0] == w.configuration.selectedIndex
            && (forall j :: 0 <= j < |chain.visited| - 1 ==>
                  NextToDeploy(w.configuration.items, chain.visited[j]) == Some(chain.visited[j + 1]))
            && 0 <= w'.configuration.selectedIndex < |w.configuration.items|
            && (k in chain.deployed <==> k in chain.visited && HasFiles(w.configuration, env, k))
            && (chain.outcome.Unhandled? <==> !Prepares(w.configuration, env, chain.visited[|chain.visited| - 1]))
  {
    var c := w.configuration;
    var loop := LoopOf(c, env, turns);
    var start := Some(c.selectedIndex as nat);
    assert DeployCommand(w, env, turns, fuel).1 == RunChain(loop, start, 0, fuel);
    ChainFollowsNext(loop, start, 0, fuel);
    ChainStaysInRange(loop, start, 0, fuel, |c.items|);
    LoopOfCoherent(c, env, turns);
    ChainDeploysPending(loop, start, 0, fuel);
    ChainStops(loop, start, 0, fuel);
  }

  /** A configuration whose selected item names itself as next and prepares
      is deployed again on every turn until cancellation is requested. */
  lemma SelfReferenceRepeats(w: Window, env: Environment, turns: nat -> Turn, fuel: nat)
    requires !w.deployInProgress && SelectedItem(w.configuration).Some?
    requires var c := w.configuration;
             NextToDeploy(c.items, c.selectedIndex as nat) == Some(c.selectedIndex as nat)
             && Prepares(c, env, c.selectedIndex as nat)
    requires forall j :: 0 <= j ==> !turns(j).cancelRequested
    ensures var chain := DeployCommand(w, env, turns, fuel).1;
            && chain.outcome == OutOfFuel
            && |chain.visited| == fuel
            && forall j :: 0 <= j < fuel ==> chain.visited[j] == w.configuration.selectedIndex
  {
    var c := w.configuration;
    SelfReferenceNeverStops(LoopOf(c, env, turns), c.selectedIndex as nat, 0, fuel);
  }
}
