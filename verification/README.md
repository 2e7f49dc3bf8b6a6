# Deployer, modelled in Dafny

Deployer is a Windows desktop tool that copies files from source
directories to destination directories. It keeps a list of
**configuration items**. Each item has source and destination directory
lists and is paired up source × destination into **directory pairs**.
Each pair has two **file collections**: the left one sees the pair from
the source, the right one from the destination. A collection lists what
is there and marks every entry as excluded, newer, older, unpaired or
from the other side. Its *pending* view keeps what a deployment would
copy. Directory paths may contain **path variables**; each variable
stands for its selected value.

A **deployment** does three things:

- It prepares the pending files of every pair of the selected item.
- It copies them one at a time. A file whose destination is locked is
  skipped, waited for, or freed by stopping the locking processes or
  services, as the item's locked-file setting says.
- It restarts what it stopped.

The main window can chain deployments: an item may name the next item
to deploy.

The model has one Dafny module per source component. Each file lives
directly in this directory:

| module | file | models |
|---|---|---|
| `Configurations` | configuration.dfy | `Configuration`: selection, default names, reload, `PrepareDeployment`, `Load`, `WindowState` |
| `Deployments` | deploy.dfy | `Configuration.Deploy`: the copy loop, locking processes, restarts |
| `Services` | services.dfy | `StopServiceAndDependencies` |
| `Waits` | waits.dfy | the polling `WaitFor*` helpers |
| `ConfigurationItems` | configuration_item.dfy | `ConfigurationItem`: settings, groups, pairs, exclusion patterns |
| `FileCollections` | file_collection.dfy | `FileCollection.GenerateFileCollection`, the comparers, `CountLabel` |
| `DirectoryPairs` | directory_pair.dfy | `DirectoryPair` |
| `DirectoryItems` | directory_item.dfy | `DirectoryItem`: path resolution and listing |
| `PathVariables` | path_variable.dfy | `PathVariable`: the selection rules |
| `Settings` | settings.dfy | `Setting<T>` and `DependentSettingCollection` |
| `GuidInfos`, `GuidLookup` | guid_info.dfy, guid_lookup.dfy | `GuidInfo`, lookups by it, `GuidInfoConverter` |
| `MainWindowCommands` | main_window.dfy | the main window's commands |
| `ConfigurationDataGrid` | configuration_data_grid.dfy | the configuration grid's commands |
| `ShortcutCommands` | shortcut_commands.dfy | gestures and their display text |
| `FileSystem`, `Extensions` | file_system.dfy, extensions.dfy | path normalisation, `Lines` |
| `Wrappers`, `Text`, `Sequences`, `Decimal`, `Options` | (same names) | generic helpers: results, strings, sequence filters, decimal text, the option enumerations |

Everything the platform decides becomes a parameter or a recorded
scenario. That covers the full-path function, directory existence and
listing, wildcard matching, locking processes, the waits' polls,
service status, the user's answer, and cancellation.

## Model

| member | source | states |
|---|---|---|
| GuidInfos.DefaultGuidInfo | Deployer/GuidInfo.cs:22-25 | a `GuidInfo` made by the public constructor is the empty GUID, equal to `GuidInfo.Empty` |
| GuidInfos.EqualsObj | Deployer/GuidInfo.cs:51-54 | equality holds only against another `GuidInfo` with the same GUID, and always against itself; null or any other type is unequal |
| GuidInfos.HashAgreesWithEquals | Deployer/GuidInfo.cs:61-66 | two `GuidInfo`s that are equal have equal hash codes, whatever the GUID hash is |
| GuidInfos.EqualsIsEquivalence | Deployer/GuidInfo.cs:51-59 | equality of `GuidInfo`s is reflexive, symmetric and transitive |
| GuidLookup.FirstWithGuid | Deployer/GuidInfo.cs:42-45 | the position found is the first item whose `GuidInfo` equals the one looked up; none means no item matches |
| GuidLookup.GetConfigurationItem | Deployer/GuidInfo.cs:42-45 | the item returned is the first in the list with the `GuidInfo` looked up; null exactly when no item has it |
| GuidLookup.LookupFindsItem | Deployer/GuidInfo.cs:42-45 | looking up an item's own `GuidInfo` finds that item when no earlier item shares it |
| GuidLookup.LookupIgnoresLaterItems | Deployer/GuidInfo.cs:42-45 | items appended after the first match do not change what a lookup finds |
| GuidLookup.Convert | Deployer/GuidInfo.cs:84-87 | the converter shows the name of the first item with the `GuidInfo`; it shows `<None>` for a non-`GuidInfo` value, for no match, or for a null name |
| GuidLookup.ConvertBack | Deployer/GuidInfo.cs:89-92 | converting back yields the item's `GuidInfo` for an item, and null for anything else |
| GuidLookup.ConvertRoundTrip | Deployer/GuidInfo.cs:84-92 | converting an item back and then forth shows that item's name, when it is the first with its `GuidInfo` and has a name |
| Settings.ReadValue | Deployer/Configuration/Setting.cs:63-67 | reading `Value` returns the stored value, or the default; the default is then stored, so the value read stays the value |
| Settings.WriteValue | Deployer/Configuration/Setting.cs:66 | after an assignment `Value` reads as the value assigned; the default and the option flag are untouched |
| Settings.DefaultIsCached | Deployer/Configuration/Setting.cs:65 | a never-written setting reads as its default, and changing the default afterwards no longer changes `Value` |
| Settings.WriteThenRead | Deployer/Configuration/Setting.cs:63-67 | writing and then reading gives back the written value and changes nothing more |
| Settings.OptionSelected | Deployer/Configuration/Setting.cs:38-42 | `OptionSelected` is false while the flag was never set, and the flag's value otherwise |
| Settings.SetOptionSelected | Deployer/Configuration/Setting.cs:41 | setting `OptionSelected` makes it read back as the value set and leaves `Value` alone |
| Settings.Apply | Deployer/Configuration/Setting.cs:53-61 | the target takes the source's value; it takes the source's flag only when that flag was ever set, and otherwise keeps its own |
| Settings.ApplyToSelf | Deployer/Configuration/Setting.cs:53-61 | applying a setting to a copy of itself changes neither its value nor its flag |
| Settings.PossibleValuesSurviveAssignment | Deployer/Configuration/Setting.cs:74-98 | the offered list depends on the delegate and the type only: reading or assigning `Value`, setting `OptionSelected` or applying another setting leaves it unchanged |
| Settings.AssignValue | Deployer/Configuration/Setting.cs:66 | assigning `Value` stores it, and announces a change unless the setting already held an equal value |
| Settings.AssignOptionSelected | Deployer/Configuration/Setting.cs:41 | assigning `OptionSelected` stores it, and announces a change unless the nullable flag already held that value |
| Settings.ShowNeverStale | Deployer/Configuration/Setting.cs:107-121 | whenever an assignment to the parent changes what `Show` returns, a change notification is raised and forwarded as a change of `Show`; the silent caching of the default never changes `Show` |
| PathVariables.FirstSelected | Deployer/Configuration/PathVariable.cs:41 | the position found is the first selected value; none exactly when nothing is selected |
| PathVariables.SelectedValue | Deployer/Configuration/PathVariable.cs:41 | `SelectedValue` is the first selected value of the list, and null exactly when none is selected |
| PathVariables.SelectedValueOfSingle | Deployer/Configuration/PathVariable.cs:41 | when at most one value is selected, `SelectedValue` is that value |
| PathVariables.GenerateInitialValuesLists | Deployer/Configuration/PathVariable.cs:45-49 | the existing values are kept, and one empty, selected value is appended |
| PathVariables.InitialValueIsSelected | Deployer/Configuration/PathVariable.cs:45-49 | a fresh variable's initial list is one selected empty value; it is the selected value and the only selected one |
| PathVariables.SetIsSelected | Deployer/Configuration/PathVariable.cs:80-99 | selecting a value makes it the only selected one; deselecting touches no other value; an unchanged flag raises nothing |
| PathVariables.SetValue | Deployer/Configuration/PathVariable.cs:86-95 | changing the text of a selected value deselects every other value; changing an unselected one keeps every flag |
| PathVariables.SetSelectedValue | Deployer/Configuration/PathVariable.cs:42 | assigning a value of the list makes it the `SelectedValue` and keeps at most one selected; assigning a foreign value changes nothing |
| PathVariables.RemoveValue | Deployer/Configuration/PathVariable.cs:71-74 | removal deletes exactly the value at the index and keeps every other value and flag, except that the first remaining value becomes selected when no remaining value was |
| PathVariables.AddValue | Deployer/Configuration/PathVariable.cs:63-69 | adding appends the value and changes no flag of the others |
| PathVariables.SetIsSelectedKeepsInvariant | Deployer/Configuration/PathVariable.cs:86-95 | changing a flag keeps at most one value selected |
| PathVariables.SetValueKeepsInvariant | Deployer/Configuration/PathVariable.cs:86-95 | changing a text keeps at most one value selected |
| PathVariables.RemoveValueKeepsInvariant | Deployer/Configuration/PathVariable.cs:71-74 | removal keeps at most one value selected; while values remain, `SelectedValue` is not null |
| PathVariables.AddValueInvariant | Deployer/Configuration/PathVariable.cs:63-74 | adding an unselected value keeps the invariant; adding a selected one to a list that has a selection breaks it, since adding deselects nothing |
| DirectoryItems.Substitute | Deployer/Configuration/DirectoryItem.cs:75 | one variable replaces its name by its selected text; it throws exactly when there is no selected value or the name is null or empty |
| DirectoryItems.SubstituteAll | Deployer/Configuration/DirectoryItem.cs:73-76 | substituting all variables fails exactly when some variable is unusable |
| DirectoryItems.ResolvePath | Deployer/Configuration/DirectoryItem.cs:66-80 | a null or empty raw path, or no variable list, resolves to the raw path unchanged |
| DirectoryItems.SubstituteAllAppend | Deployer/Configuration/DirectoryItem.cs:73-76 | substitution runs in list order: a prefix first, then the rest on its result |
| DirectoryItems.SubstituteNoOp | Deployer/Configuration/DirectoryItem.cs:75 | a usable variable whose name is absent from the path, or whose text is its own name, leaves the path unchanged |
| DirectoryItems.SetPath | Deployer/Configuration/DirectoryItem.cs:53-62 | assigning `Path` stores the unresolved text as `RawPath`; a null or empty text reads back as itself |
| DirectoryItems.GetFileInfos | Deployer/Configuration/DirectoryItem.cs:44-47 | an existing directory lists its files; a missing directory or a null path lists nothing |
| FileSystem.NormalizePath | Utilities/FileSystem.cs:110-115 | null and empty stay as they are; any other path becomes its full form with its trailing separators, and only those, removed, then lower-cased |
| FileSystem.NormalizePathIgnoresCase | Utilities/FileSystem.cs:110-115 | two paths whose full forms differ only in letter case normalise alike |
| FileSystem.NormalizeDriveRoot | Utilities/FileSystem.cs:110-115 | a drive root loses its separator, so `C:\` normalises to `c:` |
| FileSystem.NormalizeFileName | Utilities/FileSystem.cs:117-120 | a file name is lower-cased and keeps its length; null stays null |
| Extensions.Lines | Utilities/Extensions.cs:10-13 | the lines joined with the new-line text give back the string; no line contains a new-line; removing empty entries keeps every non-empty one |
| Extensions.LinesAppendNewLine | Utilities/Extensions.cs:10-13 | appending a new-line adds exactly one line |
| DirectoryPairs.CollectionsAreMirrored | Deployer/Configuration/DirectoryPair.cs:14-26 | the left collection is built on the pair's source and the right one on its destination, and they see the pair from opposite sides |
| DirectoryPairs.Name | Deployer/Configuration/DirectoryPair.cs:47 | the name is as long as both shown paths, two new-lines and the arrows together; `NameLines` says how it reads |
| DirectoryPairs.NameLines | Deployer/Configuration/DirectoryPair.cs:47 | when neither path has a line break, the name reads as exactly three lines: left path, arrows, right path |
| DirectoryPairs.ShortName | Deployer/Configuration/DirectoryPair.cs:49-52 | a disabled item shows an empty short name; an enabled one shows both directory names around the left-right arrows |
| DirectoryPairs.ShortNameMissingDirectories | Deployer/Configuration/DirectoryPair.cs:49-52 | a left directory that does not exist shows as empty, so the short name starts with the arrows |
| ConfigurationItems.GroupOf | Deployer/Configuration/ConfigurationItem.cs:30-46 | every setting belongs to one of the four groups |
| ConfigurationItems.GroupsPartitionSettings | Deployer/Configuration/ConfigurationItem.cs:30-46 | with current groups, each of the seven settings is in its own group and in no other |
| ConfigurationItems.ReplaceSetting | Deployer/Configuration/ConfigurationItem.cs:89-118 | assigning a setting property rebuilds that setting's group from the item and leaves the other groups and the directories alone |
| ConfigurationItems.ReplaceKeepsGroupsCurrent | Deployer/Configuration/ConfigurationItem.cs:89-118 | after any setting is replaced, every group shows the item's current settings |
| ConfigurationItems.NewItem | Deployer/Configuration/ConfigurationItem.cs:25-49 | a new item has current groups, the declared defaults of its seven settings, and no directories or pairs |
| ConfigurationItems.FindPair | Deployer/Configuration/ConfigurationItem.cs:75-77 | the pair found is a previous pair whose normalized paths match the source and destination; none exactly when no previous pair matches |
| ConfigurationItems.PairUp | Deployer/Configuration/ConfigurationItem.cs:66-87 | rebuilding gives one pair per source and destination |
| ConfigurationItems.PairUpAt | Deployer/Configuration/ConfigurationItem.cs:71-85 | source `i` with destination `j` sits at position `i` × destinations + `j`, source by source |
| ConfigurationItems.PairForMeaning | Deployer/Configuration/ConfigurationItem.cs:75-84 | each pair stands for its source and destination; a previous pair is reused when one matches, and a new pair is made otherwise |
| ConfigurationItems.NewPairsAreFresh | Deployer/Configuration/ConfigurationItem.cs:83 | a pair made new has an identity that no previous pair has |
| ConfigurationItems.SetDirectories | Deployer/Configuration/ConfigurationItem.cs:66-87 | changing the lists stores them and gives one pair per source and destination |
| ConfigurationItems.SetDirectoriesPairsCurrent | Deployer/Configuration/ConfigurationItem.cs:66-87 | whatever the pairs were before, after a change they stand for the current lists |
| ConfigurationItems.PairUpFor | Deployer/Configuration/ConfigurationItem.cs:71-86 | the rebuilt pairs match the sources and destinations position by position |
| ConfigurationItems.PairUpReusesOrFresh | Deployer/Configuration/ConfigurationItem.cs:75-84 | every rebuilt pair is a previous pair or a new one |
| ConfigurationItems.EnabledPairs | Deployer/Configuration/ConfigurationItem.cs:131 | a disabled item shows no pairs; an enabled one shows all of them |
| ConfigurationItems.InitialListsGiveOnePair | Deployer/Configuration/ConfigurationItem.cs:55-60 | on a new item the initial lists give exactly one pair, of the empty source and the empty destination |
| ConfigurationItems.ExclusionPatterns | Deployer/Configuration/ConfigurationItem.cs:230-247 | a null or empty list gives no patterns; otherwise the patterns are exactly the non-empty lines, the maximal runs without CR or LF, in order (`Text.BreakPieces`), and together they hold every other character in order |
| ConfigurationItems.ExclusionListPatterns | Deployer/Configuration/ConfigurationItem.cs:230-247 | the patterns are the non-empty lines of the current value of the exclusions setting |
| Text.SplitLineBreaksIsLines | Deployer/Configuration/ConfigurationItem.cs:238 | splitting on "\n", "\r\n" and "\r" with empty entries removed gives the non-empty pieces between single CR or LF characters |
| Text.SplitBreakPiecesAgree | Deployer/Configuration/ConfigurationItem.cs:238 | the separator split and the single-character split have the same first piece and the same non-empty later pieces |
| ConfigurationDataGrid.DeserializedPossibleValues | Deployer/Configuration/Setting.cs:97-98 | the delegate is not serialized, so a copied setting offers the enumeration's members or nothing, whatever the original offered |
| ConfigurationItems.ExclusionPatternsOfLines | Deployer/Configuration/ConfigurationItem.cs:238 | two non-empty lines joined by a CR LF give exactly those two patterns |
| ConfigurationItems.PolicyOf | Deployer/Configuration/ConfigurationItem.cs:134-212 | the policy holds each setting's current value |
| FileCollections.SideOfSwapped | Deployer/Configuration/FileCollection.cs:303-305 | a collection is a left view exactly when the mirrored collection is a right view; a real pair's left collection is a left view |
| FileCollections.Tag | Deployer/Configuration/FileCollection.cs:93-102 | each listed entry keeps its file and side, and is excluded exactly when an exclusion pattern matches or inclusions exist and none matches |
| FileCollections.Compare | Deployer/Configuration/FileCollection.cs:411-431 | the comparer is −1, 0 or 1, with the sign of the difference in last write times |
| FileCollections.ComparersAreConsistent | Deployer/Configuration/FileCollection.cs:393-431 | the time comparer is antisymmetric, and equal names (ignoring case) are an equivalence |
| FileCollections.FindFirst | Deployer/Configuration/FileCollection.cs:150 | the entry found is the first of the other side with the same name ignoring case; none exactly when none has it |
| FileCollections.MatchOne | Deployer/Configuration/FileCollection.cs:150-156 | an entry without a twin is left unchanged; one with a twin is marked paired, newer or older by time, and the twin leaves the pool |
| FileCollections.MatchAll | Deployer/Configuration/FileCollection.cs:148-157 | the pairing loop keeps one result and one possible twin per entry of this side |
| FileCollections.MatchAllAccounts | Deployer/Configuration/FileCollection.cs:148-157 | no other-side entry is paired twice or lost: the twins plus the entries left form the other side, and the entries left keep their order |
| FileCollections.MatchAllPaired | Deployer/Configuration/FileCollection.cs:150-155 | a paired entry carries the comparison flags with a twin of the same name |
| FileCollections.MatchAllUnpaired | Deployer/Configuration/FileCollection.cs:150 | an unpaired entry is unchanged, and no other-side entry with its name is left over |
| FileCollections.SurvivesLeftStages | Deployer/Configuration/FileCollection.cs:170-189 | an entry passes the left-view filters exactly when the left rules allow it |
| FileCollections.SurvivesRightStages | Deployer/Configuration/FileCollection.cs:191-210 | an entry passes the right-view filters exactly when the right rules allow it |
| FileCollections.SurvivesPendingStages | Deployer/Configuration/FileCollection.cs:162-211 | an entry passes every stage of the pending filter exactly when it is pending by rule |
| FileCollections.PendingFilterKeepsPending | Deployer/Configuration/FileCollection.cs:162-211 | the `RemoveAll` chain keeps exactly the pending entries, in their order |
| FileCollections.UnfilteredShape | Deployer/Configuration/FileCollection.cs:146-159 | the list before filtering is this side's entries in listing order, then the other side's unpaired entries untouched; every flag combination is consistent |
| FileCollections.PairingMeaning | Deployer/Configuration/FileCollection.cs:148-157 | an entry is paired exactly when the other side has its name; then newer and older follow the times, and otherwise both are false |
| FileCollections.PendingView | Deployer/Configuration/FileCollection.cs:88-215 | in pending mode, by argument or by setting, the result is the pending entries of the unfiltered list |
| FileCollections.NonPendingViews | Deployer/Configuration/FileCollection.cs:212-215 | outside pending mode, the excluded view keeps only excluded entries and any other view keeps all |
| FileCollections.PendingLeftView | Deployer/Configuration/FileCollection.cs:170-189 | a pending left view shows nothing from the other side and nothing excluded; newer, older and unpaired entries appear only when their option says copy |
| FileCollections.PendingRightView | Deployer/Configuration/FileCollection.cs:191-210 | a pending right view shows nothing excluded; it shows paired entries only when their times differ and their option says Replace, and source-only entries only when unpaired files are copied |
| FileCollections.DisjointPendingLeft | Deployer/Configuration/FileCollection.cs:146-189 | with no shared name, a pending left view is this side's non-excluded files when unpaired files are copied, and empty otherwise |
| FileCollections.PendingOfUnpaired | Deployer/Configuration/FileCollection.cs:182-188 | unpaired left entries are pending only when unpaired files are copied, and other-side entries never are |
| FileCollections.CountLabelOfPendingLeft | Deployer/Configuration/FileCollection.cs:326 | the count label of a pending left view counts every entry in it |
| FileCollections.WorkedExample | Deployer/Configuration/FileCollection.cs:146-211 | with `a.txt` newer on the left and unpaired files skipped, the pending view on either side is empty |
| FileCollections.NothingPending | Deployer/Configuration/FileCollection.cs:162-211 | in the worked example every unfiltered entry is filtered out |
| Configurations.SelectedItem | Deployer/Configuration/Configuration.cs:213 | the selected item exists exactly when the index is inside the list, and it is the item at the index |
| Configurations.DefaultNumber | Deployer/Configuration/Configuration.cs:162-167 | a name's number is within `int` and is positive only for a name that starts with the default prefix |
| Configurations.HighestDefault | Deployer/Configuration/Configuration.cs:164-168 | the highest default number is at least every item's number, and is one of them or 0 |
| Configurations.FirstNullName | Deployer/Configuration/Configuration.cs:166 | the position found is the first item without a name; none exactly when every item has one |
| Configurations.GenerateNewName | Deployer/Configuration/Configuration.cs:178-181 | generation fails exactly when some item has no name; otherwise the name starts with the default prefix |
| Configurations.DefaultNumberOfDefaultName | Deployer/Configuration/Configuration.cs:162-166 | the default name with number n reads back as n |
| Configurations.GeneratedNameIsNew | Deployer/Configuration/Configuration.cs:160-181 | below the `int` limit, the generated name's number is one more than the highest, so no item has that name |
| Configurations.NegativeNameIsNotDefault | Deployer/Configuration/Configuration.cs:162-168 | a default prefix followed by a negative number is not read as a default name |
| Configurations.GeneratedNameWraps | Deployer/Configuration/Configuration.cs:180 | at `int.MaxValue` the number wraps to `int.MinValue`, so the generated name carries a minus sign and does not read as a default name |
| Configurations.WrappedNameRepeats | Deployer/Configuration/Configuration.cs:160-180 | the item numbered `int.MaxValue` stays in the list, so once the wrapped name has been added, the next generated name is that same name again |
| Configurations.FirstDefaultName | Deployer/Configuration/Configuration.cs:178-181 | an empty list gets the default name with number 1 |
| Configurations.DuplicateName | Deployer/Configuration/Configuration.cs:183-186 | the duplicate name is the format's text around the existing name; a null name shows as empty |
| Configurations.Reload | Deployer/Configuration/Configuration.cs:188-199 | reloading leaves the configuration as it was and refreshes exactly the selected item's directories, or nothing |
| Configurations.CopyPairs | Deployer/Configuration/Configuration.cs:222 | each pending entry is bound for the destination path, with its own directory flag |
| Configurations.PairFiles | Deployer/Configuration/Configuration.cs:220-222 | a pair's files are its pending left entries bound for its right path; listing reads the left path, then the right one, so the pair fails exactly when either cannot be resolved, with the left path's error first, whether or not anything is pending |
| Configurations.NoSelectedValueFailsPair | Deployer/Configuration/DirectoryItem.cs:66-80 | a left path naming a variable with no selected value fails the pair, even when neither directory lists anything |
| Configurations.PairResults | Deployer/Configuration/Configuration.cs:217-223 | there is one result per pair, in pair order |
| Configurations.ConcatFilesMeaning | Deployer/Configuration/Configuration.cs:215-223 | the concatenation succeeds exactly when every pair does, then holds every file of every pair and only those; otherwise it fails with the first error |
| Configurations.PrepareDeployment | Deployer/Configuration/Configuration.cs:207-230 | no selection gives no deployment; a deployment carries the selected item's policy |
| Configurations.PairFilesMeaning | Deployer/Configuration/Configuration.cs:220-222 | a file is among a pair's files exactly when it is a pending left entry bound for the pair's right path |
| Configurations.TotalIsPending | Deployer/Configuration/Configuration.cs:217-223 | the files to copy number exactly the pending entries of all pairs |
| Configurations.PreparedFiles | Deployer/Configuration/Configuration.cs:207-230 | the prepared files are exactly the pending entries of the enabled pairs, counted once each; preparation fails exactly when some enabled pair has a left or right path that cannot be resolved, with the error of the first such pair |
| Configurations.DisabledItemPreparesNothing | Deployer/Configuration/Configuration.cs:217 | a disabled item prepares a deployment with no files |
| Configurations.PairFilesFollowPolicy | Deployer/Configuration/Configuration.cs:221 | every file a real pair contributes is allowed by the copy options: not excluded, not from the destination, and copied only when its option says Replace or Copy |
| Configurations.Load | Deployer/Configuration/Configuration.cs:805-836 | Replace takes the imported items, variables and selection; Append adds them after the current ones and keeps the selection; global settings stay |
| Configurations.AppendKeepsSelection | Deployer/Configuration/Configuration.cs:835 | after an append, the selected item is the one selected before |
| Configurations.AppendNothing | Deployer/Configuration/Configuration.cs:819-836 | appending an empty import changes nothing |
| Configurations.SetWindowState | Deployer/Configuration/Configuration.cs:115-125 | any state but Minimized is stored; Minimized is ignored, so a window that was not minimized never becomes so |
| Waits.WaitUntil | Deployer/Configuration/Configuration.cs:568-586 | the first poll that sees the condition or cancellation decides: true when the condition holds, false otherwise; a wait that no poll decides never returns; the wait never throws |
| Waits.WaitUntilAppend | Deployer/Configuration/Configuration.cs:572-584 | polls after the deciding one are never looked at |
| Waits.ConditionBeforeCancellation | Deployer/Configuration/Configuration.cs:574-581 | when the condition already holds and cancellation was requested, the wait still succeeds |
| Waits.WaitForAttributes | Deployer/Configuration/Configuration.cs:619-639 | a wait for attributes throws exactly when setting them throws, and otherwise polls like the other waits |
| Services.StopTree | Deployer/Configuration/Configuration.cs:500-558 | a completed stop returns no service twice |
| Services.StopSelf | Deployer/Configuration/Configuration.cs:519-557 | a running service is added to the set; the set is returned reversed; a service that is not running requests nothing |
| Services.StopList | Deployer/Configuration/Configuration.cs:505-517 | the dependents' results are united without duplicates |
| Services.StopTreeOrder | Deployer/Configuration/Configuration.cs:500-558 | with distinct services, a completed stop returns the running ones in the order the repeated reversals give |
| Services.StopListOrder | Deployer/Configuration/Configuration.cs:505-517 | the loop over the dependents appends each one's result in turn |
| Services.FirstDependentOrder | Deployer/Configuration/Configuration.cs:507-511 | the first dependent's result is its tree's descending order, and it opens the ascending order of the whole list |
| Services.StopTreeElements | Deployer/Configuration/Configuration.cs:500-558 | a completed stop returns each running service once and nothing else, with the service itself first when it runs |
| Services.StopTreeOutcome | Deployer/Configuration/Configuration.cs:530-547 | the stop completes when every wait sees its exit; when it gives up, some wait saw the cancellation |
| Services.StopListOutcome | Deployer/Configuration/Configuration.cs:505-517 | the loop over the dependents completes when every wait sees its exit, and gives up only when some wait saw the cancellation |
| Services.StopTreeRequests | Deployer/Configuration/Configuration.cs:530-547 | in a completed stop, each request names a running service of the tree; for a running service not repeated among its dependents, its kill is requested exactly when the method is Kill and it has a process |
| Services.StopListRequests | Deployer/Configuration/Configuration.cs:505-517 | in a completed loop, every request names a running dependent |
| Services.OneDependent | Deployer/Configuration/Configuration.cs:505-557 | for a service with one dependent, the descending order is the service then the dependent's ascending order, and all exits seen below are seen above |
| Services.NoDependent | Deployer/Configuration/Configuration.cs:519-557 | a running service with no dependents returns itself |
| Services.ChainOfTwo | Deployer/Configuration/Configuration.cs:500-558 | for S1 ← S2, stopping S1 returns [S1, S2] |
| Services.ChainOfThree | Deployer/Configuration/Configuration.cs:500-558 | for S1 ← S2 ← S3, stopping S1 returns [S1, S3, S2], since every level reverses its set |
| Deployments.Then | Deployer/Configuration/Configuration.cs:305-333 | effects accumulate in order: stopped services and killed processes |
| Deployments.AfterWait | Deployer/Configuration/Configuration.cs:294-297 | a successful wait goes on; a false wait ends the deployment; a hung wait never returns; a throwing wait throws |
| Deployments.HandleLocker | Deployer/Configuration/Configuration.cs:281-341 | the Skip policy skips the file; an exited process changes nothing; waiting stops nothing; a failed image-name query records no path and the kill still goes ahead, while a throwing handle read fails the file |
| Deployments.HandleLockers | Deployer/Configuration/Configuration.cs:279-342 | with no locking process, the file proceeds with no effects |
| Deployments.SkipPolicySkips | Deployer/Configuration/Configuration.cs:281-285 | under Skip, any locking process, even one that has exited, skips the file |
| Deployments.ExitedLockersProceed | Deployer/Configuration/Configuration.cs:286-303 | locking processes that have all exited change nothing under the other policies |
| Deployments.KilledPathRecordedFirst | Deployer/Configuration/Configuration.cs:325-339 | a running non-service process is recorded for restart, by its image path, before it is killed, even when the kill throws |
| Deployments.LockingServiceStopped | Deployer/Configuration/Configuration.cs:305-321 | a running service is stopped with its dependents, and a completed stop records them |
| Deployments.ClearDestination | Deployer/Configuration/Configuration.cs:350-368 | an existing file is made normal and then deleted; an existing directory is deleted; otherwise nothing is awaited |
| Deployments.ProcessFile | Deployer/Configuration/Configuration.cs:241-387 | cancellation ends the run before any report; a missing destination path fails the file; only the Skip policy skips it |
| Deployments.SkipComesFromPolicy | Deployer/Configuration/Configuration.cs:279-285 | a skipped file had a locking process and the Skip policy |
| Deployments.CleanFileIsCopied | Deployer/Configuration/Configuration.cs:241-380 | a file with nothing in the way is reported and copied with no effects |
| Deployments.Results | Deployer/Configuration/Configuration.cs:239 | each file is handled on its own scenario, in file order |
| Deployments.ListedIncreasing | Deployer/Configuration/Configuration.cs:239-390 | the copied files and the failed files are each listed in file order |
| Deployments.ListedMembers | Deployer/Configuration/Configuration.cs:239-390 | a file is listed as copied or failed exactly when it was reached and ended that way |
| Deployments.RunPrefixMeaning | Deployer/Configuration/Configuration.cs:239-390 | after n files, the state lists what happened to each reached file |
| Deployments.ProgressOfFile | Deployer/Configuration/Configuration.cs:253-389 | a reached file reports the counter, one more than the files copied or failed before it; a skipped file does not move it |
| Deployments.AllCopied | Deployer/Configuration/Configuration.cs:239-390 | when every file copies cleanly, every file is copied once, in order, with no errors |
| Deployments.EndedStays | Deployer/Configuration/Configuration.cs:243-246 | once the loop has ended, the state no longer changes |
| Deployments.EndedAt | Deployer/Configuration/Configuration.cs:243-297 | a file that ends the run ends it there: no later file is copied or reported failed |
| Deployments.CounterCounts | Deployer/Configuration/Configuration.cs:238-389 | the counter is one more than the files copied or failed |
| Deployments.DeployFiles | Deployer/Configuration/Configuration.cs:238-390 | the loop computes the per-file state, and the counter counts the files copied or failed |
| Deployments.StartedAppend | Deployer/Configuration/Configuration.cs:395-431 | restart events of two phases list their starts and launches in order |
| Deployments.RestartServicesStarts | Deployer/Configuration/Configuration.cs:395-410 | exactly the recorded services that now report Stopped are started, in order |
| Deployments.RelaunchLaunchesAll | Deployer/Configuration/Configuration.cs:413-431 | every killed executable is launched exactly once, in order, whether or not a launch throws; a process recorded without a path always fails to launch |
| Deployments.UnreadableMainModule | Deployer/Configuration/Configuration.cs:325-339 | a process whose image path cannot be read is recorded with no path and still killed and waited for; a handle read that throws fails the file with no effects |
| Deployments.RelaunchFailures | Deployer/Configuration/Configuration.cs:413-429 | a relaunch is reported failed for an entry exactly when that entry was recorded and either has no path or its launch throws |
| Deployments.Deploy | Deployer/Configuration/Configuration.cs:232-433 | a deployment is the loop then the restart phase; an ended run or the restart setting off restarts nothing |
| Deployments.DeployRestarts | Deployer/Configuration/Configuration.cs:393-432 | a completed run with restarting on starts the stopped services that report Stopped, then relaunches the killed executables |
| Deployments.CleanDeployment | Deployer/Configuration/Configuration.cs:232-433 | a deployment with nothing in the way copies every file once, in order, with no errors and no restarts |
| Deployments.CancelledDeployment | Deployer/Configuration/Configuration.cs:243-246 | cancellation seen at a reached file ends the deployment there, with no restarts |
| MainWindowCommands.Previous | Deployer/MainWindow.xaml.cs:123-126 | the selection moves back one but not below 0; nothing else changes (the grid's copy at Deployer/Controls/ConfigurationDataGrid.xaml.cs:43-46 is the same) |
| MainWindowCommands.Next | Deployer/MainWindow.xaml.cs:128-131 | the selection moves on one but not past the last item; nothing else changes (the grid's copy is the same) |
| MainWindowCommands.PreviousNextInverse | Deployer/MainWindow.xaml.cs:123-131 | a selection inside the list stays inside, and away from the ends the commands undo each other |
| MainWindowCommands.PreviousNextAtEnds | Deployer/MainWindow.xaml.cs:123-131 | at the ends the commands change nothing |
| MainWindowCommands.AddItem | Deployer/MainWindow.xaml.cs:475-479 | a new item with a generated name is appended and selected; adding fails exactly when some item has no name |
| MainWindowCommands.AddedItemIsNew | Deployer/MainWindow.xaml.cs:475-479 | when every item is named and the highest default number is below the `int` limit, adding succeeds and the added item's name differs from every other item's; it has one pair and is enabled |
| MainWindowCommands.ClearReference | Deployer/MainWindow.xaml.cs:491-493 | a next-configuration value naming the removed item is reset to the default; nothing else changes |
| MainWindowCommands.RemoveItem | Deployer/MainWindow.xaml.cs:481-505 | after confirmation, the selected item is removed, references are cleared, and the item before it, or the first, is selected; otherwise nothing changes |
| MainWindowCommands.RemoveLeavesNoReference | Deployer/MainWindow.xaml.cs:488-502 | after removal no item names the removed one as next, unless that is the default; the selection is inside a non-empty list; with unique `GuidInfo`s the removed item is no longer found |
| MainWindowCommands.Swap | Deployer/MainWindow.xaml.cs:671-672 | exchanging neighbours is a permutation that touches only the two |
| MainWindowCommands.ReinsertBeforeIsSwap | Deployer/MainWindow.xaml.cs:671-672 | removing item i + 1 and inserting it at i swaps the two |
| MainWindowCommands.ReinsertAfterIsSwap | Deployer/MainWindow.xaml.cs:685-686 | removing item i and inserting it at i + 1 swaps the two |
| MainWindowCommands.SwapTwice | Deployer/MainWindow.xaml.cs:664-690 | swapping twice restores the list |
| MainWindowCommands.MoveUp | Deployer/MainWindow.xaml.cs:664-676 | with two or more items and a selection above 0, the item swaps with the one before and stays selected; an index past the end throws; otherwise nothing changes |
| MainWindowCommands.MoveDownAsWritten | Deployer/MainWindow.xaml.cs:678-690 | the move down as written: outside its guard nothing changes; inside it the item is removed and reinserted one position lower, which throws for the last item |
| MainWindowCommands.MoveDownLosesLastItem | Deployer/MainWindow.xaml.cs:680-686 | with the last item selected the command throws after the removal, and the item is lost |
| MainWindowCommands.MoveDownCounterexample | Deployer/MainWindow.xaml.cs:680-686 | two items with the second selected: the command throws and only the first item remains |
| MainWindowCommands.MoveDown | Deployer/MainWindow.xaml.cs:678-690 | with the intended guard, the item swaps with the one after and stays selected; otherwise nothing changes |
| MainWindowCommands.MoveDownAgrees | Deployer/MainWindow.xaml.cs:678-690 | wherever the written guard does not misfire, the written and the corrected command agree |
| MainWindowCommands.MoveDownThenUp | Deployer/MainWindow.xaml.cs:664-690 | moving down then up restores the list and the selection |
| MainWindowCommands.MoveUpThenDown | Deployer/MainWindow.xaml.cs:664-690 | moving up then down restores the list and the selection |
| MainWindowCommands.PadDetails | Deployer/MainWindow.xaml.cs:564-570 | the details are padded to at least three lines with new-lines, and a text of three or more lines is kept as it is |
| MainWindowCommands.ReportedErrors | Deployer/MainWindow.xaml.cs:578-587 | the error count is at least the failed files, and is zero exactly when no file failed, no service action failed and no restart failed |
| MainWindowCommands.NextToDeploy | Deployer/MainWindow.xaml.cs:625-628 | the next item is found only through a selected next-configuration option, and is the first item with that `GuidInfo` |
| MainWindowCommands.RaisedAt | Deployer/MainWindow.xaml.cs:553 | preparing an item raises an error exactly when it does not prepare |
| MainWindowCommands.ErrorsAt | Deployer/MainWindow.xaml.cs:555-623 | an item without files reports no errors |
| MainWindowCommands.LoopOfCoherent | Deployer/MainWindow.xaml.cs:553-555 | in the handler's loop, only an item that prepared has files |
| MainWindowCommands.RunChain | Deployer/MainWindow.xaml.cs:548-629 | the loop starts with the item to deploy, and nothing to deploy visits nothing |
| MainWindowCommands.ChainFollowsNext | Deployer/MainWindow.xaml.cs:625-628 | after the first item, the loop goes from each item to the one it names as next |
| MainWindowCommands.ChainStaysInRange | Deployer/MainWindow.xaml.cs:548-629 | when `next` stays inside the list, so does every visited item |
| MainWindowCommands.ChainDeploysPending | Deployer/MainWindow.xaml.cs:555-619 | exactly the visited items with files are deployed, in turn order |
| MainWindowCommands.ChainStops | Deployer/MainWindow.xaml.cs:548 | every turn but the last prepared and was not cancelled; the loop stops only on cancellation, an unhandled error, no next item, or the fuel bound |
| MainWindowCommands.CancelSeenEndsChain | Deployer/MainWindow.xaml.cs:591-607 | with cancellation sticky on the one token source, a turn whose deployment saw cancellation is the last one: the chain ends there as cancelled |
| MainWindowCommands.CancellationStaysRequested | Deployer/MainWindow.xaml.cs:654-657 | once cancellation is requested on the token source, every later turn sees it requested |
| MainWindowCommands.SelfReferenceNeverStops | Deployer/MainWindow.xaml.cs:548-629 | an item that names itself as next and prepares repeats until cancelled: it fills any fuel |
| MainWindowCommands.SelectLast | Deployer/MainWindow.xaml.cs:550 | each turn selects the item it deploys, so the last visited item stays selected |
| MainWindowCommands.DeployCommand | Deployer/MainWindow.xaml.cs:520-633 | a deployment in progress ignores the command; otherwise the chain runs and the last visited item is selected; the progress flag is cleared unless an unhandled error escaped, and the dialog stays busy exactly when errors were reported and the close-on-errors setting is off |
| MainWindowCommands.DeployFollowsChain | Deployer/MainWindow.xaml.cs:546-628 | the command visits the selected item first, then the chain of next items |
| MainWindowCommands.SelfReferenceRepeats | Deployer/MainWindow.xaml.cs:548-629 | a selected item that names itself as next repeats its deployment until cancelled |
| ConfigurationDataGrid.Cached | Deployer/Controls/ConfigurationDataGrid.xaml.cs:109 | serializing reads each setting, which stores its default, but does not change what it reads as |
| ConfigurationDataGrid.Serialized | Deployer/Controls/ConfigurationDataGrid.xaml.cs:107-109 | the serialized item reads as before, with the same name, `GuidInfo`, directories and pairs |
| ConfigurationDataGrid.Deserialized | Deployer/Controls/ConfigurationDataGrid.xaml.cs:112 | a deserialized setting reads as the written one and has no delegate |
| ConfigurationDataGrid.CopyDirectories | Deployer/Controls/ConfigurationDataGrid.xaml.cs:112 | deserialized directories keep their raw paths and are new objects |
| ConfigurationDataGrid.AddDirectories | Deployer/Controls/ConfigurationDataGrid.xaml.cs:112 | the deserializer appends the directories one by one and keeps everything else |
| ConfigurationDataGrid.AddDirectoriesPairsCurrent | Deployer/Controls/ConfigurationDataGrid.xaml.cs:112 | after at least one addition, the pairs stand for the current lists |
| ConfigurationDataGrid.AddDirectoriesFreshPairs | Deployer/Controls/ConfigurationDataGrid.xaml.cs:112 | additions create only pairs with new identities |
| ConfigurationDataGrid.ReadLists | Deployer/Controls/ConfigurationDataGrid.xaml.cs:112 | reading back appends the sources, then the destinations |
| ConfigurationDataGrid.ReadListsPairs | Deployer/Controls/ConfigurationDataGrid.xaml.cs:112 | read back into an empty item, the lists get current, new pairs |
| ConfigurationDataGrid.AssignSettings | Deployer/Controls/ConfigurationDataGrid.xaml.cs:112 | the deserialized settings read as the written ones, and the groups show them |
| ConfigurationDataGrid.ReadBack | Deployer/Controls/ConfigurationDataGrid.xaml.cs:112 | the read-back item keeps the name, `GuidInfo` and raw paths, with new directory objects, and has current pairs, all of them new |
| ConfigurationDataGrid.XmlCopy | Deployer/Controls/ConfigurationDataGrid.xaml.cs:107-112 | the copy reads like the original, with the same name, `GuidInfo` and raw paths, and current groups |
| ConfigurationDataGrid.SamePairsStayCurrent | Deployer/Configuration/ConfigurationItem.cs:66-87 | whether the pairs are current depends only on the lists and the pairs |
| ConfigurationDataGrid.XmlCopyIsIndependent | Deployer/Controls/ConfigurationDataGrid.xaml.cs:107-112 | the copy's pairs stand for its own lists, and it shares no directory or pair object with the original |
| ConfigurationDataGrid.Duplicate | Deployer/Controls/ConfigurationDataGrid.xaml.cs:103-118 | with a selection, a renamed copy is inserted right after the selected item and becomes selected; without one nothing changes |
| ConfigurationDataGrid.InsertThenRemove | Deployer/Controls/ConfigurationDataGrid.xaml.cs:115 | removing what was inserted after position i gives the list back |
| ConfigurationDataGrid.FirstMatchIsFound | Deployer/GuidInfo.cs:42-45 | the lookup finds the first match |
| ConfigurationDataGrid.InsertedGuids | Deployer/Controls/ConfigurationDataGrid.xaml.cs:115 | after the insertion each `GuidInfo` sits where it was, shifted by one past the copy |
| ConfigurationDataGrid.LookupPastInsert | Deployer/Controls/ConfigurationDataGrid.xaml.cs:115 | a lookup after the insertion finds what it found before, shifted past the copy, and never the copy |
| ConfigurationDataGrid.DuplicateThenRemove | Deployer/Controls/ConfigurationDataGrid.xaml.cs:103-118 | removing the copy again restores the list; only the selection has moved |
| ConfigurationDataGrid.DuplicateInsertsAfter | Deployer/Controls/ConfigurationDataGrid.xaml.cs:112-115 | the copy is inserted right after the original and carries its `GuidInfo` |
| ConfigurationDataGrid.DuplicateLookup | Deployer/Controls/ConfigurationDataGrid.xaml.cs:103-118 | the copy shares its `GuidInfo`, so every lookup after the duplication finds what it found before and never the copy |
| ConfigurationDataGrid.OpenSettings | Deployer/Controls/ConfigurationDataGrid.xaml.cs:120-138 | a visible window for the item's GUID is restored if minimized and activated; otherwise a new window is stored and shown |
| ConfigurationDataGrid.OpenSettingsTwice | Deployer/Controls/ConfigurationDataGrid.xaml.cs:120-138 | opening twice in a row only activates the second time and changes no window |
| ConfigurationDataGrid.DuplicateSharesSettingsWindow | Deployer/Controls/ConfigurationDataGrid.xaml.cs:103-138 | after a duplication, opening the copy's settings while the original's window is visible activates that window |
| ShortcutCommands.Names | Deployer/Configuration/ShortcutCommands.cs:51 | there is one name per flag |
| ShortcutCommands.FlagsOfMappingValues | Deployer/Configuration/ShortcutCommands.cs:63-72 | the flags listed are the set bits, lowest first, without None |
| ShortcutCommands.FlagNamesMeaning | Deployer/Configuration/ShortcutCommands.cs:49-51 | the names are the set modifiers in Alt, Ctrl, Shift, Win order; never "None"; none exactly when no modifier is set |
| ShortcutCommands.ModifiersRoundTrip | Deployer/Configuration/ShortcutCommands.cs:49-93 | reading the names back gives the modifiers |
| ShortcutCommands.KeyText | Deployer/Configuration/ShortcutCommands.cs:102-114 | the value `Key.Next` shares is written "PageDown"; any other key uses its enumeration name, the first declared name for its value |
| ShortcutCommands.GetShortcutKey | Deployer/Configuration/ShortcutCommands.cs:44-61 | there is one text per gesture of the command |
| ShortcutCommands.GestureTextRoundTrip | Deployer/Configuration/ShortcutCommands.cs:49-57 | splitting a gesture text at "+" gives back the gesture's modifiers and key text |
| ShortcutCommands.NamesFreeOfPlus | Deployer/Configuration/ShortcutCommands.cs:85-93 | no modifier name contains "+" |
| ShortcutCommands.PlainShortcutTexts | Deployer/Configuration/ShortcutCommands.cs:14-57 | Reload, Deploy and About show as "F5", "F6" and "F1" |
| ShortcutCommands.ControlShortcutTexts | Deployer/Configuration/ShortcutCommands.cs:15-52 | hard reload, previous and next show as "Ctrl+R", "Ctrl+Prior" and "Ctrl+PageDown" |
| ShortcutCommands.MoveShortcutTexts | Deployer/Configuration/ShortcutCommands.cs:19-110 | the move commands show as "Ctrl+Shift+Prior" and "Ctrl+Shift+PageDown" |
| ShortcutCommands.CtrlText | Deployer/Configuration/ShortcutCommands.cs:49-52 | a Control gesture reads "Ctrl+" and the key text |
| ShortcutCommands.CtrlShiftText | Deployer/Configuration/ShortcutCommands.cs:49-52 | a Control+Shift gesture reads "Ctrl+Shift+" and the key text |

In the worked example of `FileCollections.WorkedExample`, `a.txt`
exists only on the left, so it is unpaired. With unpaired files set to
Skip, the filter at `Deployer/Configuration/FileCollection.cs:182-185`
removes it, and the pending view is empty on both sides.

## Left out

- File and directory copying, deleting, attributes, the full-path and
  file-name functions, directory existence and listing. These are
  platform calls. They are parameters or recorded scenarios: `fullPath`,
  `fileName`, `directoryExists`, `listFiles`, `Listing`, `FileScenario`.
- Wildcard matching (`WildcardPattern`). It is the `matches` parameter.
- Locking-process detection (the Restart Manager), the service query
  over WMI, service status, `Process.Kill`, `Process.Start` and
  `Refresh`. These are platform calls, recorded per locker and per
  service node.
- The delays between polls, threads, tasks and the dispatcher. The
  model is sequential, and a wait is a finite trace of polls. A trace
  that runs out without a decision stands for a wait that never returns.
- Progress and error texts: `Resources`, `Transform`, `string.Format`
  of the messages, and the percentage, which is `double` arithmetic.
  The model carries only the per-file progress report (`reported`,
  `Configuration.cs:255`) with the counter, the integer behind the
  percentage; the failed files; and the restart events with their
  failures. The UNC report that remote locking processes cannot be
  detected (`Configuration.cs:266-276`), the waiting and stopping
  reports about locking processes (`Configuration.cs:290-292`,
  `:307-309`, `:327-329` and `:526-528`) and the restart progress texts
  (`:400`, `:421`) are not represented.
- Logging, the message box and the confirmation dialog. The user's
  answer is a parameter.
- Saving, backups, and XML (de)serialization to files. `Load` starts
  from the imported configuration.
- Window geometry, command routing and the rest of the WPF plumbing
  around the commands. Property-changed notifications are modelled only
  where a handler changes state: the groups, the pairs and the path
  variable flags.
- FileSystem.NormalizePath: lower-casing is modelled on ASCII letters
  only, because culture-invariant lower-casing of all of Unicode is a
  table lookup this model does not carry.
- Pair reuse compares `NormalizePath(Path)` of the directories. The
  model takes this composite as the `normalized` parameter, because it
  depends on the path variables and the full-path function. So the
  throw from `d.Left.Path` or `sourceDirectory.Path` in the pairs
  handler (`ConfigurationItem.cs:75-76`) on an unresolvable path is not
  modelled: the handler always rebuilds the pairs.
- The settings that `Configuration.cs`, `FileCollection.cs` and
  `MainWindow.xaml.cs` read but `ConfigurationItem.cs` does not declare:
  `NextConfigurationSetting`, `StopServiceMethodSetting`,
  `KilledProcessesSetting`, `InclusionsListPatterns` and
  `IncludeDirectoriesSetting`. They are carried as an extra settings
  record and read through one `Policy` value.
- `UpdateLiveSetting` is declared but in no group. The group
  descriptions are display text only.
- ConfigurationDataGrid.XmlCopy: the deserializer's new setting objects
  hold `default(T)` as their default. The model keeps the original
  default, which is never read because every copied setting has a
  stored value. The extra settings and `GuidInfo` are copied as values.
- ConfigurationDataGrid.AssignSettings: the deserializer assigns the
  settings one at a time, and each assignment rebuilds one group. The
  model assigns them together and rebuilds all four groups, which ends
  in the same state.
- Object identities are ids on directory items, pairs and services.
  `IndexOf` and `Remove` identify items by position, which assumes the
  list holds distinct objects.
- MainWindowCommands.RemoveItem: when the list becomes empty the
  selection is left as it was. The control then resets it, which this
  model does not include.
- MainWindowCommands.RunChain: the chain of deployments has no cycle
  guard in the source. The model bounds it by a `fuel` count, so a chain
  longer than the fuel is cut off (`ChainStops` names this case).
- MainWindowCommands.DeployCommand: preparation reads the disk when the
  item is selected. The model fixes the listing and the path variables
  for the whole chain, and cancellation is decided once per turn.
- MainWindowCommands.ErrorsAt: only the number of reported errors is
  modelled, not their text. `Unhandled` stands only for a failure of
  `PrepareDeployment`. An exception thrown out of
  `Configuration.Instance.Deploy` is caught at
  `Deployer/MainWindow.xaml.cs:593-603`, counted as one more error,
  marks the deployment as having an unhandled error, and the chain
  goes on. The model has no such exception (see `Deployments.Deploy`
  below), so this path is not modelled.
- Deployments.HandleLocker: `HasExited` throwing, for example on access
  denied, is not modelled. The model reads it as a boolean.
- ShortcutCommands.KeyText: when several `Key` names share a value,
  `Enum.ToString` is taken to give the first declared one, as the remark
  at `ShortcutCommands.cs:96-100` says. .NET does not document that
  choice. Only `Key.Next` is renamed, so the gestures on `Key.PageUp`
  read "Prior".
- MainWindowCommands.DeployCommand: the model takes the selected item to
  be the item at the selected index. In the source,
  `SelectedConfigurationItem` is a field of its own
  (`MainWindow.xaml.cs:247-251`), and only the view's bindings keep it
  in step with `SelectedConfigurationIndex`. Adding, removing and
  deploying (`MainWindow.xaml.cs:478`, `:483-496`, `:546-550`, `:626`)
  and the grid's duplicate (`ConfigurationDataGrid.xaml.cs:105` and
  `:115-116`) rely on the two agreeing.
- Services.StopTree: `HashSet` iteration order is taken as insertion
  order. .NET does not document this, but it holds for sets without
  removals.
- Services.StopTree: `DependentServices` (`Configuration.cs:505`),
  `GetProcessFromService` (`Configuration.cs:507`), and `Refresh` and
  `Status` before the running check (`Configuration.cs:519-520`) are
  taken never to throw. In the source such a throw escapes the
  recursion, fails the locked file, and loses the services already
  stopped, so they are not restarted. The model does not cover it.
- Services.StopSelf: the same calls at `Configuration.cs:519-520` are
  taken never to throw. A throw from `Stop`, `Kill` or a wait is inside
  the `try` at `Configuration.cs:524-554`. It is reported, and the
  service stays in the set. The model covers only the `Stop` and `Kill`
  throws, because its waits do not throw (next line).
- Waits.WaitUntil: a poll never throws. In the source, `Refresh`
  (`Configuration.cs:603`), `Process.HasExited` (`Configuration.cs:574`), and `SetAttributes` and
  `GetAttributes` (`Configuration.cs:623-627`) can throw. A throw in
  the service and process waits is caught at `Configuration.cs:549-554`.
  The "never throws" in this row is a property of the model only.
- Deployments.Deploy: in the restart phase, `Refresh` and `Status`
  (`Configuration.cs:397-398`) and `Path.GetDirectoryName`
  (`Configuration.cs:418`) are taken never to throw. In the source such
  a throw ends the restarts early and escapes to the window's handler.
  The model restarts every recorded service and process.
- Deployments.RestartServicesStarts: the same assumption holds for
  `Refresh` and `Status` at `Configuration.cs:397-398`. The model
  assumes every status read succeeds, so none of the later services is
  skipped.
- FileCollections.FindFirst: file names are compared after ASCII-only
  lower-casing (`Name.ToLowerInvariant()`, FileCollection.cs:395; `Lower`
  in the model). The source lower-cases
  all of Unicode, so `Ä.txt` and `ä.txt` pair there but not in the
  model.
- FileSystem.NormalizeFileName: lower-casing folds ASCII letters only,
  for the reason given at `FileSystem.NormalizePath` above.
- Settings.DefaultIsCached: values are non-null in the model. In the
  source, a null default makes the getter store null. It then keeps
  reading the current default, so later changes of the default do
  show.
- Settings.ShowNeverStale: a `ConditionToShow` is taken to read only the
  parent setting's `Value` and `OptionSelected`. The source's
  conditions are arbitrary delegates. A condition that reads other
  state can change without a notification.
- `HardReloadCurrentConfiguration` resets the icon cache first. Icons
  are not modelled.
- `FileCollection.UpdateFileCollection`, its timer and the directory
  change handlers only re-run `GenerateFileCollection`. The model states
  what `GenerateFileCollection` returns.

## Findings

| source | as written | input that shows it | evidently intended | confidence | as-written member | corrected member |
|---|---|---|---|---|---|---|
| Deployer/MainWindow.xaml.cs:680-686 | the move-down guard is `SelectedConfigurationIndex < Count`, which admits the last index | two items with index 1 selected: `RemoveAt(1)` leaves one item, then `Insert(2, item)` throws, and the removed item is lost | the guard `0 <= index < Count - 1`, as the move-up command has its mirror `index > 0` | not executed | MainWindowCommands.MoveDownAsWritten (with MainWindowCommands.MoveDownLosesLastItem, MainWindowCommands.MoveDownCounterexample) | MainWindowCommands.MoveDown (with MainWindowCommands.MoveDownThenUp, MainWindowCommands.MoveDownAgrees) |
