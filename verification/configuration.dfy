/** `Configuration`: the list of configuration items and path variables,
    the selected index and the window state, with the default-name
    generator, the deployment preparation and the import merge. */
module Configurations {
  import opened Wrappers
  import opened Text
  import opened Decimal
  import opened Options
  import opened Settings
  import opened PathVariables
  import opened DirectoryItems
  import opened FileCollections
  import opened DirectoryPairs
  import opened ConfigurationItems
  import opened Deployments

  datatype WindowState = Normal | Minimized | Maximized

  datatype Configuration = Configuration(
    items: seq<ConfigurationItem>,
    pathVariables: seq<PathVariable>,
    /** `SelectedConfigurationIndex`: any int; -1 while nothing is selected. */
    selectedIndex: int,
    windowState: WindowState,
    closeDialogOnErrors: bool)

  /** `ElementAtOrDefault(SelectedConfigurationIndex)`. */
  function SelectedItem(c: Configuration): (r: Option<ConfigurationItem>)
    ensures r.Some? <==> 0 <= c.selectedIndex < |c.items|
    ensures r.Some? ==> r.value == c.items[c.selectedIndex]
  {
    if 0 <= c.selectedIndex < |c.items| then Some(c.items[c.selectedIndex]) else None
  }

  // ---------------------------------------------------------------------
  // Default names

  /** The text before the number of a default name. */
  const DefaultPrefix: string := DefaultName + " "

  /** The number `int.TryParse` reads from the `num` group of the pattern
      `^New Configuration (?'num'[0-9]*)$`, or 0 when the name does not match
      or the digits do not fit an `int`. The `$` also matches before a
      final line feed. */
  function DefaultNumber(name: string): (r: nat)
    ensures r <= Int32Max
    ensures r > 0 ==> StartsWith(name, DefaultPrefix)
  {
    if StartsWith(name, DefaultPrefix) then
      var rest := name[|DefaultPrefix|..];
      var digits := if |rest| > 0 && rest[|rest| - 1] == '\n' then rest[..|rest| - 1] else rest;
      if IsDigits(digits) then
        match TryParseDigits(digits)
        case Some(v) => v
        case None => 0
      else 0
    else 0
  }

  /** Why a generated name cannot be made: an item without a name makes
      `Regex.Match` throw. */
  datatype NameError = NullItemName(index: nat)

  /** The numbers of the default-named items: the largest positive one, or
      0 when there is none. */
  function HighestDefault(names: seq<string>): (r: nat)
    ensures r <= Int32Max
    ensures forall i :: 0 <= i < |names| ==> DefaultNumber(names[i]) <= r
    ensures r == 0 || exists i :: 0 <= i < |names| && DefaultNumber(names[i]) == r
    decreases |names|
  {
    if |names| == 0 then 0
    else
      var rest := HighestDefault(names[1..]);
      assert forall i :: 1 <= i < |names| ==> names[i] == names[1..][i - 1];
      if DefaultNumber(names[0]) > rest then DefaultNumber(names[0]) else rest
  }

  /** The first item without a name, if any. */
  function FirstNullName(names: seq<Option<string>>): (r: Option<nat>)
    ensures r.None? <==> forall i :: 0 <= i < |names| ==> names[i].Some?
    ensures r.Some? ==> r.value < |names| && names[r.value].None?
    ensures r.Some? ==> forall i :: 0 <= i < r.value ==> names[i].Some?
    decreases |names|
  {
    if |names| == 0 then None
    else if names[0].None? then Some(0)
    else
      match FirstNullName(names[1..])
      case None =>
        assert forall i :: 1 <= i < |names| ==> names[i] == names[1..][i - 1];
        None
      case Some(i) =>
        assert forall j :: 1 <= j < i + 1 ==> names[j] == names[1..][j - 1];
        Some(i + 1)
  }

  function NamesOf(names: seq<Option<string>>): (r: seq<string>)
    requires forall i :: 0 <= i < |names| ==> names[i].Some?
    ensures |r| == |names| && forall i :: 0 <= i < |r| ==> r[i] == names[i].value
  {
    seq(|names|, i requires 0 <= i < |names| => names[i].value)
  }

  /** `GenerateNewConfigurationItemName`: the default name with one more than
      the highest default number. The addition is unchecked 32-bit `int`
      arithmetic. */
  function GenerateNewName(names: seq<Option<string>>): (r: Result<string, NameError>)
    ensures r.Failure? <==> exists i :: 0 <= i < |names| && names[i].None?
    ensures r.Success? ==> StartsWith(r.value, DefaultPrefix)
  {
    match FirstNullName(names)
    case Some(i) => Failure(NullItemName(i))
    case None => Success(NameAfter(HighestDefault(NamesOf(names))))
  }

  /** The default name numbered one more than `highest`, in 32-bit `int`
      arithmetic. */
  function NameAfter(highest: int): (r: string)
    ensures StartsWith(r, DefaultPrefix)
  {
    var r := DefaultPrefix + IntToString(WrapInt32(highest + 1));
    assert r[..|DefaultPrefix|] == DefaultPrefix;
    r
  }

  /** The default name with number n reads back as n. */
  lemma DefaultNumberOfDefaultName(n: nat)
    requires 0 < n <= Int32Max
    ensures DefaultNumber(DefaultPrefix + NatToString(n)) == n
  {
    var name := DefaultPrefix + NatToString(n);
    assert name[..|DefaultPrefix|] == DefaultPrefix;
    assert name[|DefaultPrefix|..] == NatToString(n);
    DigitsRoundTrip(n);
  }

  /** Below the `int` limit, a generated name is new: its number is larger
      than every default number in use, so no item already has it. */
  lemma GeneratedNameIsNew(names: seq<Option<string>>)
    requires forall i :: 0 <= i < |names| ==> names[i].Some?
    requires HighestDefault(NamesOf(names)) < Int32Max
    ensures GenerateNewName(names).Success?
    ensures DefaultNumber(GenerateNewName(names).value) == HighestDefault(NamesOf(names)) + 1
    ensures forall i :: 0 <= i < |names| ==> names[i] != Some(GenerateNewName(names).value)
  {
    var h := HighestDefault(NamesOf(names));
    var name := DefaultPrefix + NatToString(h + 1);
    assert FirstNullName(names).None?;
    assert GenerateNewName(names) == Success(name);
    DefaultNumberOfDefaultName(h + 1);
    forall i | 0 <= i < |names| ensures names[i] != Some(name) {
      assert DefaultNumber(NamesOf(names)[i]) <= h;
    }
  }

  /** A name with a negative number is not a default name. */
  lemma NegativeNameIsNotDefault(n: int)
    requires n < 0
    ensures var r := DefaultPrefix + IntToString(n);
            |r| > |DefaultPrefix| && r[|DefaultPrefix|] == '-' && DefaultNumber(r) == 0
  {
    var r := DefaultPrefix + IntToString(n);
    var rest := r[|DefaultPrefix|..];
    assert rest == "-" + NatToString(-n);
    assert rest[|rest| - 1] == NatToString(-n)[|NatToString(-n)| - 1];
    assert !IsDigit(rest[0]);
  }

  /** At the `int` limit the number wraps to `Int32.MinValue`: the name
      then carries a minus sign and no longer reads as a default name. */
  lemma GeneratedNameWraps(names: seq<Option<string>>)
    requires forall i :: 0 <= i < |names| ==> names[i].Some?
    requires HighestDefault(NamesOf(names)) == Int32Max
    ensures GenerateNewName(names).Success?
    ensures var r := GenerateNewName(names).value;
            |r| > |DefaultPrefix| && r[|DefaultPrefix|] == '-' && DefaultNumber(r) == 0
  {
    assert FirstNullName(names).None?;
    var n := WrapInt32(HighestDefault(NamesOf(names)) + 1);
    assert n < 0 by {
      assert (Int32Max + 1 - Int32Min) % 0x1_0000_0000 == 0;
    }
    NegativeNameIsNotDefault(n);
  }

  /** The item numbered `int.MaxValue` stays in the list, so generating a
      name again after adding the wrapped one gives that same name. */
  lemma WrappedNameRepeats(names: seq<Option<string>>)
    requires forall i :: 0 <= i < |names| ==> names[i].Some?
    requires HighestDefault(NamesOf(names)) == Int32Max
    ensures GenerateNewName(names).Success?
    ensures var first := GenerateNewName(names).value;
            GenerateNewName(names + [Some(first)]) == Success(first)
  {
    var first := GenerateNewName(names).value;
    AppendNamed(names, first);
    StillHighest(NamesOf(names), NamesOf(names) + [first]);
    SameHighestSameName(names, names + [Some(first)]);
  }

  /** Appending a named item appends its name. */
  lemma AppendNamed(names: seq<Option<string>>, name: string)
    requires forall i :: 0 <= i < |names| ==> names[i].Some?
    ensures forall i :: 0 <= i < |names + [Some(name)]| ==> (names + [Some(name)])[i].Some?
    ensures NamesOf(names + [Some(name)]) == NamesOf(names) + [name]
  {
    var more := names + [Some(name)];
    assert forall i :: 0 <= i < |more| ==> more[i] == if i < |names| then names[i] else Some(name);
  }

  /** Lists without unnamed items and with the same highest number give
      the same generated name. */
  lemma SameHighestSameName(names: seq<Option<string>>, more: seq<Option<string>>)
    requires forall i :: 0 <= i < |names| ==> names[i].Some?
    requires forall i :: 0 <= i < |more| ==> more[i].Some?
    requires HighestDefault(NamesOf(names)) == HighestDefault(NamesOf(more))
    ensures GenerateNewName(names) == GenerateNewName(more)
  {
    GeneratedFromHighest(names);
    GeneratedFromHighest(more);
  }

  /** Without unnamed items, the generated name carries the highest
      number plus one, wrapped. */
  lemma GeneratedFromHighest(names: seq<Option<string>>)
    requires forall i :: 0 <= i < |names| ==> names[i].Some?
    ensures GenerateNewName(names) == Success(NameAfter(HighestDefault(NamesOf(names))))
  {
  }

  /** Keeping a list in front keeps its highest number `int.MaxValue`. */
  lemma StillHighest(names: seq<string>, more: seq<string>)
    requires |names| <= |more| && forall i :: 0 <= i < |names| ==> more[i] == names[i]
    requires HighestDefault(names) == Int32Max
    ensures HighestDefault(more) == Int32Max
  {
    var k :| 0 <= k < |names| && DefaultNumber(names[k]) == Int32Max;
    assert DefaultNumber(more[k]) == Int32Max;
  }

  /** A list without default-named items starts the numbering at 1. */
  lemma FirstDefaultName()
    ensures GenerateNewName([]) == Success(DefaultPrefix + "1")
  {
    assert NatToString(1) == "1";
  }

  // ---------------------------------------------------------------------
  // Duplicate names and reloading

  /** A one-placeholder format string: the text around `{0}`. */
  datatype NameFormat = NameFormat(before: string, after: string)

  /** `GenerateDuplicateConfigurationName`: the name placed into the
      resource's format; a null name formats as empty. */
  function DuplicateName(format: NameFormat, existingName: Option<string>): (r: string)
    ensures |r| == |format.before| + |existingName.GetOr([])| + |format.after|
    ensures r[..|format.before|] == format.before
    ensures r[|format.before|..|r| - |format.after|] == existingName.GetOr([])
    ensures r[|r| - |format.after|..] == format.after
  {
    format.before + existingName.GetOr([]) + format.after
  }

  /** `ReloadCurrentConfiguration`: the selection is set to -1 and back, and
      the selected item, if any, refreshes each source and destination
      directory, in that order. */
  function Reload(c: Configuration): (r: (Configuration, seq<DirectoryItem>))
    ensures r.0 == c
    ensures SelectedItem(c).None? ==> r.1 == []
    ensures SelectedItem(c).Some? ==>
              |r.1| == |SelectedItem(c).value.sourceDirectories| + |SelectedItem(c).value.destinationDirectories|
              && forall d :: d in r.1 <==> d in SelectedItem(c).value.sourceDirectories || d in SelectedItem(c).value.destinationDirectories
  {
    var selectedIndex := c.selectedIndex;
    var cleared := c.(selectedIndex := -1);
    var restored := cleared.(selectedIndex := selectedIndex);
    match SelectedItem(restored)
    case Some(item) => (restored, item.sourceDirectories + item.destinationDirectories)
    case None => (restored, [])
  }

  // ---------------------------------------------------------------------
  // Preparing a deployment

  /** What `PrepareDeployment` reads from the disk: the listing of the
      directory at a resolved path, and the wildcard matcher of the
      exclusion and inclusion patterns. */
  datatype Environment = Environment(listing: Option<string> -> Listing, matches: (string, string) -> bool)

  /** The resolved path of a directory, when resolving does not throw. */
  function Resolved(d: DirectoryItem, variables: seq<PathVariable>): Option<string> {
    match Path(d, Some(variables))
    case Success(path) => path
    case Failure(_) => None
  }

  /** Both directories of the pair have a `Path` that does not throw. */
  predicate Resolves(p: DirectoryPair, variables: seq<PathVariable>) {
    Path(p.left, Some(variables)).Success? && Path(p.right, Some(variables)).Success?
  }

  /** The pending entries of a pair's left collection, listed at the
      resolved paths of its two directories. It is read only for a pair
      that resolves. */
  function PendingLeft(item: ConfigurationItem, p: DirectoryPair, variables: seq<PathVariable>, env: Environment): seq<InternalFileItem> {
    var view := LeftFileCollection(p);
    GenerateFileCollection(env.listing(Resolved(view.directory, variables)), env.listing(Resolved(view.otherDirectory, variables)),
                           PolicyOf(item), SideOf(view.directory, view.otherDirectory, item.sourceDirectories, item.destinationDirectories),
                           Some(ViewPendingFiles), env.matches)
  }

  /** Each pending entry paired with the destination path. */
  function CopyPairs(entries: seq<InternalFileItem>, destination: Option<string>): (r: seq<FileCopyPair>)
    ensures |r| == |entries|
    ensures forall i :: 0 <= i < |r| ==> r[i] == FileCopyPair(entries[i].file, destination, entries[i].file.isDirectory)
  {
    seq(|entries|, i requires 0 <= i < |entries| => FileCopyPair(entries[i].file, destination, entries[i].file.isDirectory))
  }

  /** The files of one pair. Listing the left collection reads the `Path`
      of the left directory and then of the right one, whatever the
      directories hold, and either read may throw. The lazy `Select` reads
      the right path once more, with the same result. */
  function PairFiles(item: ConfigurationItem, p: DirectoryPair, variables: seq<PathVariable>, env: Environment)
    : (r: Result<seq<FileCopyPair>, PathError>)
    ensures r.Failure? <==> !Resolves(p, variables)
    ensures Path(p.left, Some(variables)).Failure? ==> r == Failure(Path(p.left, Some(variables)).error)
    ensures Path(p.left, Some(variables)).Success? && Path(p.right, Some(variables)).Failure? ==>
              r == Failure(Path(p.right, Some(variables)).error)
    ensures r.Success? ==> r.value == CopyPairs(PendingLeft(item, p, variables, env), Resolved(p.right, variables))
  {
    match Path(p.left, Some(variables))
    case Failure(e) => Failure(e)
    case Success(_) =>
      match Path(p.right, Some(variables))
      case Failure(e) => Failure(e)
      case Success(destination) => Success(CopyPairs(PendingLeft(item, p, variables, env), destination))
  }

  /** A left path that names a variable without a selected value fails
      the pair, even when neither directory lists anything. */
  lemma NoSelectedValueFailsPair(item: ConfigurationItem, p: DirectoryPair, env: Environment)
    requires p.left.rawPath == Some("L") && p.right.rawPath == Some("R")
    requires forall path :: env.listing(path) == Listing([], [])
    ensures PairFiles(item, p, [PathVariable(Some("V"), [])], env) == Failure(NoSelectedValue(0))
  {
    assert SelectedValue(PathVariable(Some("V"), [])).None?;
  }

  /** The result of each pair, in pair order. */
  function PairResults(item: ConfigurationItem, pairs: seq<DirectoryPair>, variables: seq<PathVariable>, env: Environment)
    : (r: seq<Result<seq<FileCopyPair>, PathError>>)
    ensures |r| == |pairs| && forall k :: 0 <= k < |pairs| ==> r[k] == PairFiles(item, pairs[k], variables, env)
  {
    seq(|pairs|, k requires 0 <= k < |pairs| => PairFiles(item, pairs[k], variables, env))
  }

  /** The files of all pairs, concatenated in pair order; the first failing
      pair stops the preparation. */
  function ConcatFiles(results: seq<Result<seq<FileCopyPair>, PathError>>): (r: Result<seq<FileCopyPair>, PathError>)
    decreases |results|
  {
    if |results| == 0 then Success([])
    else
      match results[0]
      case Failure(e) => Failure(e)
      case Success(first) =>
        match ConcatFiles(results[1..])
        case Failure(e) => Failure(e)
        case Success(rest) => Success(first + rest)
  }

  /** The sum of the file counts of successful results. */
  function TotalFiles(results: seq<Result<seq<FileCopyPair>, PathError>>): nat
    decreases |results|
  {
    if |results| == 0 then 0
    else (if results[0].Success? then |results[0].value| else 0) + TotalFiles(results[1..])
  }

  /** The concatenation succeeds exactly when every pair does; then it
      holds every file of every pair, and only those, as many as they have
      together; otherwise it fails with the first pair's error. */
  lemma {:induction false} ConcatFilesMeaning(results: seq<Result<seq<FileCopyPair>, PathError>>)
    ensures ConcatFiles(results).Success? <==> forall k :: 0 <= k < |results| ==> results[k].Success?
    ensures ConcatFiles(results).Failure? ==>
              exists k :: 0 <= k < |results| && results[k] == Failure(ConcatFiles(results).error)
                          && forall j :: 0 <= j < k ==> results[j].Success?
    ensures ConcatFiles(results).Success? ==>
              && |ConcatFiles(results).value| == TotalFiles(results)
              && forall f :: f in ConcatFiles(results).value <==> exists k :: 0 <= k < |results| && f in results[k].value
    decreases |results|
  {
    if |results| > 0 {
      var tail := results[1..];
      ConcatFilesMeaning(tail);
      assert forall k :: 1 <= k < |results| ==> results[k] == tail[k - 1];
      if ConcatFiles(results).Failure? && results[0].Success? {
        var k :| 0 <= k < |tail| && tail[k] == Failure(ConcatFiles(tail).error) && forall j :: 0 <= j < k ==> tail[j].Success?;
        assert results[k + 1] == tail[k];
      }
      if ConcatFiles(results).Success? {
        forall f ensures f in ConcatFiles(results).value <==> exists k :: 0 <= k < |results| && f in results[k].value {
          if exists k :: 0 <= k < |results| && f in results[k].value {
            var k :| 0 <= k < |results| && f in results[k].value;
            if k > 0 {
              assert f in tail[k - 1].value;
            }
          }
        }
      }
    }
  }

  /** `PrepareDeployment`: nothing when the selected index is out of range;
      otherwise the item's policy and its files to copy. */
  function PrepareDeployment(c: Configuration, env: Environment): (r: Result<Option<DeploymentItem>, PathError>)
    ensures SelectedItem(c).None? ==> r == Success(None)
    ensures SelectedItem(c).Some? && r.Success? ==> r.value.Some?
    ensures r.Success? && r.value.Some? ==>
              SelectedItem(c).Some? && r.value.value.policy == PolicyOf(SelectedItem(c).value)
  {
    match SelectedItem(c)
    case None => Success(None)
    case Some(item) =>
      match ConcatFiles(PairResults(item, EnabledPairs(item), c.pathVariables, env))
      case Failure(e) => Failure(e)
      case Success(files) => Success(Some(DeploymentItem(PolicyOf(item), files)))
  }

  /** `f` is a pending entry of the pair's left collection, bound for the
      pair's right path. */
  predicate CopiedFrom(f: FileCopyPair, item: ConfigurationItem, p: DirectoryPair, variables: seq<PathVariable>, env: Environment) {
    exists e :: e in PendingLeft(item, p, variables, env) && f == FileCopyPair(e.file, Resolved(p.right, variables), e.file.isDirectory)
  }

  /** The files of one pair are its pending entries, bound for its right path. */
  lemma PairFilesMeaning(item: ConfigurationItem, p: DirectoryPair, variables: seq<PathVariable>, env: Environment)
    requires PairFiles(item, p, variables, env).Success?
    ensures forall f :: f in PairFiles(item, p, variables, env).value <==> CopiedFrom(f, item, p, variables, env)
  {
    var entries := PendingLeft(item, p, variables, env);
    var files := PairFiles(item, p, variables, env).value;
    forall f ensures f in files <==> CopiedFrom(f, item, p, variables, env) {
      if f in files {
        var i :| 0 <= i < |files| && files[i] == f;
        assert entries[i] in entries;
      }
      if CopiedFrom(f, item, p, variables, env) {
        var e :| e in entries && f == FileCopyPair(e.file, Resolved(p.right, variables), e.file.isDirectory);
        var i :| 0 <= i < |entries| && entries[i] == e;
        assert files[i] == f;
      }
    }
  }

  /** The pending entries of all pairs. */
  function PendingCount(item: ConfigurationItem, pairs: seq<DirectoryPair>, variables: seq<PathVariable>, env: Environment): nat
    decreases |pairs|
  {
    if |pairs| == 0 then 0 else |PendingLeft(item, pairs[0], variables, env)| + PendingCount(item, pairs[1..], variables, env)
  }

  lemma {:induction false} TotalIsPending(item: ConfigurationItem, pairs: seq<DirectoryPair>, variables: seq<PathVariable>, env: Environment)
    requires forall k :: 0 <= k < |pairs| ==> PairFiles(item, pairs[k], variables, env).Success?
    ensures TotalFiles(PairResults(item, pairs, variables, env)) == PendingCount(item, pairs, variables, env)
    decreases |pairs|
  {
    if |pairs| > 0 {
      var results := PairResults(item, pairs, variables, env);
      assert forall k :: 0 <= k < |pairs[1..]| ==> pairs[1..][k] == pairs[k + 1];
      TotalIsPending(item, pairs[1..], variables, env);
      assert results[1..] == PairResults(item, pairs[1..], variables, env);
      PairFilesCount(item, pairs[0], variables, env);
    }
  }

  /** A pair that resolves has one file per pending entry. */
  lemma PairFilesCount(item: ConfigurationItem, p: DirectoryPair, variables: seq<PathVariable>, env: Environment)
    requires PairFiles(item, p, variables, env).Success?
    ensures |PairFiles(item, p, variables, env).value| == |PendingLeft(item, p, variables, env)|
  {
  }

  /** A prepared deployment holds, for each pair in order, the pending
      entries of its left collection bound for its right path: a file is
      there exactly when it comes from some pair, and there are as many
      files as pending entries. The preparation fails exactly when some
      enabled pair has a left or right path that cannot be resolved, with
      the error of the first such pair. */
  lemma PreparedFiles(c: Configuration, env: Environment)
    requires SelectedItem(c).Some?
    ensures var item := SelectedItem(c).value;
            var pairs := EnabledPairs(item);
            var r := PrepareDeployment(c, env);
            && (r.Failure? <==> exists k :: 0 <= k < |pairs| && !Resolves(pairs[k], c.pathVariables))
            && (r.Failure? ==> exists k :: 0 <= k < |pairs| && !Resolves(pairs[k], c.pathVariables)
                                 && r.error == PairFiles(item, pairs[k], c.pathVariables, env).error
                                 && forall j :: 0 <= j < k ==> Resolves(pairs[j], c.pathVariables))
            && (r.Success? ==>
                  && r.value.Some?
                  && |r.value.value.filesToCopy| == PendingCount(item, pairs, c.pathVariables, env)
                  && forall f :: f in r.value.value.filesToCopy <==>
                       exists k :: 0 <= k < |pairs| && CopiedFrom(f, item, pairs[k], c.pathVariables, env))
  {
    var item := SelectedItem(c).value;
    var pairs := EnabledPairs(item);
    var results := PairResults(item, pairs, c.pathVariables, env);
    ConcatFilesMeaning(results);
    PairsFail(item, pairs, c.pathVariables, env);
    if ConcatFiles(results).Success? {
      TotalIsPending(item, pairs, c.pathVariables, env);
      forall k | 0 <= k < |pairs| {
        PairFilesMeaning(item, pairs[k], c.pathVariables, env);
      }
    }
  }

  /** The pairs' files fail exactly when some pair does not resolve, with
      the error of the first pair that does not. */
  lemma PairsFail(item: ConfigurationItem, pairs: seq<DirectoryPair>, variables: seq<PathVariable>, env: Environment)
    ensures var r := ConcatFiles(PairResults(item, pairs, variables, env));
            && (r.Failure? <==> exists k :: 0 <= k < |pairs| && !Resolves(pairs[k], variables))
            && (r.Failure? ==> exists k :: 0 <= k < |pairs| && !Resolves(pairs[k], variables)
                                 && r.error == PairFiles(item, pairs[k], variables, env).error
                                 && forall j :: 0 <= j < k ==> Resolves(pairs[j], variables))
  {
    var results := PairResults(item, pairs, variables, env);
    ConcatFails(results);
    PairResultsResolve(item, pairs, variables, env);
  }

  /** A pair's result succeeds exactly when the pair resolves. */
  lemma PairResultsResolve(item: ConfigurationItem, pairs: seq<DirectoryPair>, variables: seq<PathVariable>, env: Environment)
    ensures var results := PairResults(item, pairs, variables, env);
            forall k :: 0 <= k < |pairs| ==>
              && (results[k].Success? <==> Resolves(pairs[k], variables))
              && results[k] == PairFiles(item, pairs[k], variables, env)
  {
  }

  /** The concatenation fails exactly when some result does, with the error
      of the first failing result. */
  lemma ConcatFails(results: seq<Result<seq<FileCopyPair>, PathError>>)
    ensures ConcatFiles(results).Failure? <==> exists k :: 0 <= k < |results| && results[k].Failure?
    ensures ConcatFiles(results).Failure? ==>
              exists k :: 0 <= k < |results| && results[k] == Failure(ConcatFiles(results).error)
                          && forall j :: 0 <= j < k ==> results[j].Success?
  {
    ConcatFilesMeaning(results);
  }

  /** A disabled item prepares an empty deployment: it has no pairs. */
  lemma DisabledItemPreparesNothing(c: Configuration, env: Environment)
    requires SelectedItem(c).Some? && !ValueOf(SelectedItem(c).value.enabled)
    ensures PrepareDeployment(c, env) == Success(Some(DeploymentItem(PolicyOf(SelectedItem(c).value), [])))
  {
  }

  /** When a pair is a genuine source → destination pair, the files it
      contributes are exactly what the policy says to copy to the right:
      nothing excluded, nothing from the other side, and paired files only
      when newer or older with the matching option on Replace. */
  lemma PairFilesFollowPolicy(item: ConfigurationItem, p: DirectoryPair, variables: seq<PathVariable>, env: Environment)
    requires p.left in item.sourceDirectories && p.right in item.destinationDirectories
    ensures var policy := PolicyOf(item);
            forall e :: e in PendingLeft(item, p, variables, env) ==>
              && !e.other && !e.excluded
              && (e.hasOther ==> e.overwrite || e.getOverwritten)
              && (e.overwrite ==> policy.newerOnLeft == ExistingFileOptions.Replace)
              && (e.getOverwritten ==> policy.newerOnRight == ExistingFileOptions.Replace)
              && (!e.hasOther ==> policy.leftButNotRight == NonExistingFileOptions.Copy)
  {
    var view := LeftFileCollection(p);
    PendingLeftView(env.listing(Resolved(view.directory, variables)), env.listing(Resolved(view.otherDirectory, variables)), PolicyOf(item),
                    SideOf(view.directory, view.otherDirectory, item.sourceDirectories, item.destinationDirectories),
                    Some(ViewPendingFiles), env.matches);
  }

  // ---------------------------------------------------------------------
  // Importing and the window state

  /** `Load(path, mode)` after the backup and the deserialization: Replace
      takes the imported items, variables and selected index; Append adds
      the imported items and variables after the current ones and keeps the
      selection. Everything else is a global setting and stays. */
  function Load(current: Configuration, imported: Configuration, mode: LoadMode): (r: Configuration)
    ensures r.windowState == current.windowState && r.closeDialogOnErrors == current.closeDialogOnErrors
    ensures mode == LoadMode.Replace ==>
              r.items == imported.items && r.pathVariables == imported.pathVariables && r.selectedIndex == imported.selectedIndex
    ensures mode == LoadMode.Append ==>
              && |r.items| == |current.items| + |imported.items|
              && r.items[..|current.items|] == current.items && r.items[|current.items|..] == imported.items
              && |r.pathVariables| == |current.pathVariables| + |imported.pathVariables|
              && r.pathVariables[..|current.pathVariables|] == current.pathVariables
              && r.pathVariables[|current.pathVariables|..] == imported.pathVariables
              && r.selectedIndex == current.selectedIndex
  {
    match mode
    case Replace => current.(items := imported.items, pathVariables := imported.pathVariables, selectedIndex := imported.selectedIndex)
    case Append => current.(items := current.items + imported.items, pathVariables := current.pathVariables + imported.pathVariables)
  }

  /** Appending keeps the selected item: an index valid before still names
      the same item. */
  lemma AppendKeepsSelection(current: Configuration, imported: Configuration)
    requires SelectedItem(current).Some?
    ensures SelectedItem(Load(current, imported, LoadMode.Append)) == SelectedItem(current)
  {
  }

  /** Appending an empty import changes nothing. */
  lemma AppendNothing(current: Configuration, imported: Configuration)
    requires imported.items == [] && imported.pathVariables == []
    ensures Load(current, imported, LoadMode.Append) == current
  {
    assert current.items + [] == current.items;
    assert current.pathVariables + [] == current.pathVariables;
  }

  /** The `WindowState` setter ignores Minimized, so a restored window never
      comes back minimized. */
  function SetWindowState(c: Configuration, value: WindowState): (r: Configuration)
    ensures value != Minimized ==> r.windowState == value
    ensures value == Minimized ==> r == c
    ensures r.windowState == Minimized ==> c.windowState == Minimized
    ensures r.(windowState := c.windowState) == c
  {
    if value != Minimized then c.(windowState := value) else c
  }
}
