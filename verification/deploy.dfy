/** `Configuration.Deploy`: the sequential loop over the files to copy. For
    each file it checks for cancellation, reports progress, handles the
    processes locking the destination by the locked-file policy, clears the
    destination and copies. Errors in one file are reported and the loop
    goes on; cancellation ends the whole deployment at once. At the end,
    stopped services and killed processes are restarted when the policy
    asks for it. What the platform reports for each file is a
    `FileScenario`, indexed by the file's position. */
module Deployments {
  import opened Wrappers
  import opened Sequences
  import opened Options
  import opened Waits
  import opened Services
  import opened DirectoryItems

  /** A file to copy: the source entry, the destination directory (the
      resolved path of the destination, possibly null) and whether it is a
      directory. */
  datatype FileCopyPair = FileCopyPair(sourceFile: FileItem, destinationPath: Option<string>, isDirectory: bool)

  datatype DeploymentItem = DeploymentItem(policy: Policy, filesToCopy: seq<FileCopyPair>)

  /** What `GetMainModuleFileName` gives for a process: reading the process
      handle throws (access denied, say), the image-name query fails and the
      method returns null, or the executable path. */
  datatype MainModule = HandleThrows | QueryFailed | ImagePath(path: string)

  /** The entry `killedProcesses` receives: null when the query failed. */
  function RecordedPath(m: MainModule): (r: Option<string>)
    requires !m.HandleThrows?
    ensures r.None? <==> m.QueryFailed?
    ensures m.ImagePath? ==> r == Some(m.path)
  {
    match m
    case QueryFailed => None
    case ImagePath(path) => Some(path)
  }

  /** A process the platform reports as locking the destination. */
  datatype Locker = Locker(
    exited: bool,
    /** The service the process runs, if any. */
    service: Option<ServiceNode>,
    mainModule: MainModule,
    killThrows: bool,
    /** The polls of the wait for the process to exit. */
    exitWait: seq<Poll>)

  /** What the platform reports while one file is handled. */
  datatype FileScenario = FileScenario(
    /** Cancellation was requested before the file was started. */
    cancelled: bool,
    /** The destination exists as a file, before the locks are handled. */
    destinationIsFile: bool,
    lockers: seq<Locker>,
    /** The destination exists as a file, after the locks are handled. */
    fileExistsAfter: bool,
    directoryExists: bool,
    setAttributesThrows: bool,
    attributesWait: seq<Poll>,
    /** The polls of the wait for the file or directory to be deleted. */
    deleteWait: seq<Poll>,
    copyThrows: bool)

  /** How handling one file ends: copied, skipped by the locked-file
      policy, failed with a reported exception, or ending the deployment
      (returned, or still waiting). */
  datatype FileOutcome = Copied | Skipped | Failed | Ended(stillWaiting: bool)

  /** One turn of the loop: the outcome, the effects, and whether progress
      was reported. */
  datatype FileResult = FileResult(outcome: FileOutcome, effects: Effects, reported: bool)

  /** What handling a file records for the restart phase, and the service
      requests it made. */
  datatype Effects = Effects(stoppedServices: seq<nat>, killedProcesses: seq<Option<string>>, serviceActions: seq<Action>)

  const NoEffects := Effects([], [], [])

  function Then(a: Effects, b: Effects): (r: Effects)
    ensures r.stoppedServices == a.stoppedServices + b.stoppedServices
    ensures r.killedProcesses == a.killedProcesses + b.killedProcesses
  {
    Effects(a.stoppedServices + b.stoppedServices, a.killedProcesses + b.killedProcesses, a.serviceActions + b.serviceActions)
  }

  // ---------------------------------------------------------------------
  // Locks

  datatype LockResult = Proceed | SkipFile | LockEnded(stillWaiting: bool) | LockThrew

  /** A wait inside the handling of a file: true goes on, false returns. */
  function AfterWait(w: WaitResult): (r: LockResult)
    ensures w == Satisfied <==> r == Proceed
    ensures w == Cancelled <==> r == LockEnded(false)
    ensures w == Hung <==> r == LockEnded(true)
    ensures w == Threw <==> r == LockThrew
  {
    match w
    case Satisfied => Proceed
    case Cancelled => LockEnded(false)
    case Hung => LockEnded(true)
    case Threw => LockThrew
  }

  /** One locking process under the locked-file policy. */
  function HandleLocker(l: Locker, policy: Policy): (r: (LockResult, Effects))
    ensures policy.lockedFile == LockedFileOptions.Skip ==> r == (SkipFile, NoEffects)
    ensures policy.lockedFile != LockedFileOptions.Skip && l.exited ==> r == (Proceed, NoEffects)
    ensures r.0 != SkipFile ==> policy.lockedFile != LockedFileOptions.Skip
    ensures policy.lockedFile == LockedFileOptions.WaitForLockingProcesses ==> r.1 == NoEffects
  {
    match policy.lockedFile
    case Skip => (SkipFile, NoEffects)
    case WaitForLockingProcesses =>
      if l.exited then (Proceed, NoEffects) else (AfterWait(WaitUntil(l.exitWait)), NoEffects)
    case StopLockingProcesses =>
      if l.exited then (Proceed, NoEffects)
      else
        match l.service
        case Some(svc) =>
          var (stopped, actions) := StopTree(svc, policy.stopServiceMethod, true);
          (match stopped
           case Done(s) => (AfterWait(WaitUntil(l.exitWait)), Effects(s, [], actions))
           case Aborted => (LockEnded(false), Effects([], [], actions))
           case Waiting => (LockEnded(true), Effects([], [], actions)))
        case None =>
          if l.mainModule.HandleThrows? then (LockThrew, NoEffects)
          else
            // The path, null or not, is recorded before the process is killed.
            var path := RecordedPath(l.mainModule);
            if l.killThrows then (LockThrew, Effects([], [path], []))
            else (AfterWait(WaitUntil(l.exitWait)), Effects([], [path], []))
  }

  /** The loop over the locking processes; anything but going on ends it. */
  function HandleLockers(ls: seq<Locker>, policy: Policy): (r: (LockResult, Effects))
    ensures |ls| == 0 ==> r == (Proceed, NoEffects)
    decreases |ls|
  {
    if |ls| == 0 then (Proceed, NoEffects)
    else
      var (first, e) := HandleLocker(ls[0], policy);
      if first == Proceed then
        var (rest, more) := HandleLockers(ls[1..], policy);
        (rest, Then(e, more))
      else (first, e)
  }

  /** Under the Skip policy, any locking process, even one that has
      exited, skips the file and nothing is stopped or killed. */
  lemma SkipPolicySkips(ls: seq<Locker>, policy: Policy)
    requires policy.lockedFile == LockedFileOptions.Skip && |ls| > 0
    ensures HandleLockers(ls, policy) == (SkipFile, NoEffects)
  {
  }

  /** Processes that have all exited change nothing, whatever the policy
      other than Skip. */
  lemma {:induction false} ExitedLockersProceed(ls: seq<Locker>, policy: Policy)
    requires policy.lockedFile != LockedFileOptions.Skip
    requires forall i :: 0 <= i < |ls| ==> ls[i].exited
    ensures HandleLockers(ls, policy) == (Proceed, NoEffects)
    decreases |ls|
  {
    if |ls| > 0 {
      ExitedLockersProceed(ls[1..], policy);
      assert Then(NoEffects, NoEffects) == NoEffects;
    }
  }

  /** A running process that is not a service is recorded for restart
      before it is killed, so a kill that throws still leaves its path
      recorded, and the file fails. */
  lemma KilledPathRecordedFirst(l: Locker, policy: Policy, path: string)
    requires policy.lockedFile == LockedFileOptions.StopLockingProcesses
    requires !l.exited && l.service.None? && l.mainModule == ImagePath(path)
    ensures HandleLocker(l, policy).1.killedProcesses == [Some(path)]
    ensures l.killThrows ==> HandleLocker(l, policy).0 == LockThrew
    ensures !l.killThrows ==> HandleLocker(l, policy).0 == AfterWait(WaitUntil(l.exitWait))
  {
  }

  /** When the image-name query fails, null is recorded and the process is
      still killed; when reading the handle throws, nothing is recorded or
      killed and the file fails. */
  lemma UnreadableMainModule(l: Locker, policy: Policy)
    requires policy.lockedFile == LockedFileOptions.StopLockingProcesses
    requires !l.exited && l.service.None?
    ensures l.mainModule.QueryFailed? ==> HandleLocker(l, policy).1.killedProcesses == [None]
    ensures l.mainModule.QueryFailed? && !l.killThrows ==> HandleLocker(l, policy).0 == AfterWait(WaitUntil(l.exitWait))
    ensures l.mainModule.HandleThrows? ==> HandleLocker(l, policy) == (LockThrew, NoEffects)
  {
  }

  /** A running service is stopped with its dependents; a completed stop
      records the stopped services, and a cancelled one ends the
      deployment. */
  lemma LockingServiceStopped(l: Locker, policy: Policy)
    requires policy.lockedFile == LockedFileOptions.StopLockingProcesses
    requires !l.exited && l.service.Some?
    ensures var stopped := StopTree(l.service.value, policy.stopServiceMethod, true).0;
            && (stopped.Done? ==> HandleLocker(l, policy).1.stoppedServices == stopped.value)
            && (stopped.Aborted? ==> HandleLocker(l, policy).0 == LockEnded(false))
            && HandleLocker(l, policy).1.killedProcesses == []
  {
  }

  // ---------------------------------------------------------------------
  // One file

  /** Deleting what is at the destination: a file is first given normal
      attributes, then deleted; a directory is deleted. */
  function ClearDestination(pair: FileCopyPair, sc: FileScenario): (r: WaitResult)
    ensures !pair.sourceFile.isDirectory && sc.fileExistsAfter ==>
              (sc.setAttributesThrows ==> r == Threw) &&
              (!sc.setAttributesThrows ==> r == (if WaitUntil(sc.attributesWait) == Satisfied then WaitUntil(sc.deleteWait) else WaitUntil(sc.attributesWait)))
    ensures pair.sourceFile.isDirectory && sc.directoryExists ==> r == WaitUntil(sc.deleteWait)
    ensures !(pair.sourceFile.isDirectory && sc.directoryExists) && !(!pair.sourceFile.isDirectory && sc.fileExistsAfter) ==> r == Satisfied
  {
    if !pair.sourceFile.isDirectory && sc.fileExistsAfter then
      match WaitForAttributes(sc.setAttributesThrows, sc.attributesWait)
      case Satisfied => WaitUntil(sc.deleteWait)
      case other => other
    else if pair.sourceFile.isDirectory && sc.directoryExists then WaitUntil(sc.deleteWait)
    else Satisfied
  }

  /** One file: progress is not reported when cancellation is seen first,
      nor when a null destination makes the path computation throw. */
  function ProcessFile(pair: FileCopyPair, sc: FileScenario, policy: Policy): (r: FileResult)
    ensures sc.cancelled ==> r == FileResult(Ended(false), NoEffects, false)
    ensures !sc.cancelled && pair.destinationPath.None? ==> r == FileResult(Failed, NoEffects, false)
    ensures !sc.cancelled && pair.destinationPath.Some? ==> r.reported
    ensures !sc.destinationIsFile ==> r.effects == NoEffects
    ensures r.outcome == Skipped ==> policy.lockedFile == LockedFileOptions.Skip && sc.destinationIsFile && |sc.lockers| > 0
  {
    if sc.cancelled then FileResult(Ended(false), NoEffects, false)
    else if pair.destinationPath.None? then FileResult(Failed, NoEffects, false)
    else
      var (lock, e) := if sc.destinationIsFile then HandleLockers(sc.lockers, policy) else (Proceed, NoEffects);
      assert lock == SkipFile ==> policy.lockedFile == LockedFileOptions.Skip && |sc.lockers| > 0 by {
        if lock == SkipFile { SkipComesFromPolicy(sc.lockers, policy); }
      }
      match lock
      case SkipFile => FileResult(Skipped, e, true)
      case LockEnded(w) => FileResult(Ended(w), e, true)
      case LockThrew => FileResult(Failed, e, true)
      case Proceed =>
        match ClearDestination(pair, sc)
        case Satisfied => FileResult(if sc.copyThrows then Failed else Copied, e, true)
        case Cancelled => FileResult(Ended(false), e, true)
        case Hung => FileResult(Ended(true), e, true)
        case Threw => FileResult(Failed, e, true)
  }

  lemma {:induction false} SkipComesFromPolicy(ls: seq<Locker>, policy: Policy)
    requires HandleLockers(ls, policy).0 == SkipFile
    ensures policy.lockedFile == LockedFileOptions.Skip && |ls| > 0
    decreases |ls|
  {
    if |ls| > 0 && HandleLocker(ls[0], policy).0 == Proceed {
      SkipComesFromPolicy(ls[1..], policy);
    }
  }

  /** A file with nothing in the way: not cancelled, a destination, no
      locking process, every wait satisfied and no exception. */
  predicate Clean(pair: FileCopyPair, sc: FileScenario) {
    && !sc.cancelled && pair.destinationPath.Some?
    && (sc.destinationIsFile ==> sc.lockers == [])
    && !sc.copyThrows
    && (!pair.sourceFile.isDirectory && sc.fileExistsAfter ==>
          !sc.setAttributesThrows && WaitUntil(sc.attributesWait) == Satisfied && WaitUntil(sc.deleteWait) == Satisfied)
    && (pair.sourceFile.isDirectory && sc.directoryExists ==> WaitUntil(sc.deleteWait) == Satisfied)
  }

  lemma CleanFileIsCopied(pair: FileCopyPair, sc: FileScenario, policy: Policy)
    requires Clean(pair, sc)
    ensures ProcessFile(pair, sc, policy) == FileResult(Copied, NoEffects, true)
  {
  }

  // ---------------------------------------------------------------------
  // The loop

  /** The loop's state: the progress counter `i` (starting at 1), whether
      the deployment has ended (and whether it is still waiting), the
      positions copied and failed, the counter values reported, and the
      effects gathered. */
  datatype RunState = RunState(
    counter: nat,
    ended: Option<bool>,
    copied: seq<nat>,
    errors: seq<nat>,
    progress: seq<nat>,
    effects: Effects)

  const Start := RunState(1, None, [], [], [], NoEffects)

  /** Each file's own result, in file order. */
  function Results(files: seq<FileCopyPair>, scenario: nat -> FileScenario, policy: Policy): (r: seq<FileResult>)
    ensures |r| == |files|
    ensures forall k :: 0 <= k < |files| ==> r[k] == ProcessFile(files[k], scenario(k), policy)
  {
    seq(|files|, k requires 0 <= k < |files| => ProcessFile(files[k], scenario(k), policy))
  }

  /** No file before `k` ended the deployment. */
  predicate Reached(results: seq<FileResult>, k: nat)
    requires k <= |results|
  {
    forall j :: 0 <= j < k ==> !results[j].outcome.Ended?
  }

  /** Files before `k` that moved the progress counter (copied or failed). */
  function Advanced(results: seq<FileResult>, k: nat): (r: nat)
    requires k <= |results|
    ensures r <= k
  {
    if k == 0 then 0
    else Advanced(results, k - 1) + (if results[k - 1].outcome in {Copied, Failed} then 1 else 0)
  }

  /** One turn of the loop applied to the state. */
  function Step(st: RunState, k: nat, r: FileResult): RunState {
    var st1 := st.(progress := st.progress + (if r.reported then [st.counter] else []), effects := Then(st.effects, r.effects));
    match r.outcome
    case Copied => st1.(copied := st.copied + [k], counter := st.counter + 1)
    case Skipped => st1
    case Failed => st1.(errors := st.errors + [k], counter := st.counter + 1)
    case Ended(w) => st1.(ended := Some(w))
  }

  /** The state after the first `n` files, or when the deployment ended. */
  function RunPrefix(results: seq<FileResult>, n: nat): RunState
    requires n <= |results|
  {
    if n == 0 then Start
    else
      var st := RunPrefix(results, n - 1);
      if st.ended.Some? then st else Step(st, n - 1, results[n - 1])
  }

  predicate Increasing(s: seq<nat>) {
    forall i, j :: 0 <= i < j < |s| ==> s[i] < s[j]
  }

  /** `Reached` for `n` files is `Reached` for `n - 1` and file `n - 1` not
      ending the deployment. */
  lemma ReachedStep(results: seq<FileResult>, n: nat)
    requires 0 < n <= |results|
    ensures Reached(results, n) <==> Reached(results, n - 1) && !results[n - 1].outcome.Ended?
    ensures forall k: nat :: k <= n ==> Reached(results, n) ==> Reached(results, k)
  {
  }

  /** The loop has ended exactly when some file ended it; until then the
      counter is one more than the files that moved it. */
  lemma {:induction false} EndedMeaning(results: seq<FileResult>, n: nat)
    requires n <= |results|
    ensures var st := RunPrefix(results, n);
            && (st.ended.None? <==> Reached(results, n))
            && (st.ended.None? ==> st.counter == 1 + Advanced(results, n))
  {
    if n > 0 {
      EndedMeaning(results, n - 1);
      ReachedStep(results, n);
    }
  }

  /** The files the state lists with outcome `o`: copied or failed. */
  function Listed(st: RunState, o: FileOutcome): seq<nat>
    requires o == Copied || o == Failed
  {
    if o == Copied then st.copied else st.errors
  }

  /** One more file adds its own position to the copied or failed files,
      unless the deployment had already ended. */
  lemma StepLists(results: seq<FileResult>, n: nat, o: FileOutcome)
    requires 0 < n <= |results| && (o == Copied || o == Failed)
    ensures var prev := RunPrefix(results, n - 1);
            Listed(RunPrefix(results, n), o) == Listed(prev, o) + (if prev.ended.None? && results[n - 1].outcome == o then [n - 1] else [])
  {
  }

  lemma ReachedPrefix(results: seq<FileResult>, m: nat, k: nat)
    requires k <= m <= |results| && Reached(results, m)
    ensures Reached(results, k)
  {
  }

  lemma IncreasingAppend(s: seq<nat>, x: nat)
    requires Increasing(s) && forall y :: y in s ==> y < x
    ensures Increasing(s + [x])
  {
    assert forall i :: 0 <= i < |s| ==> s[i] in s;
  }

  /** The files listed with outcome `o` after `n` files come before `n`. */
  lemma {:induction false} ListedBelow(results: seq<FileResult>, n: nat, o: FileOutcome)
    requires n <= |results| && (o == Copied || o == Failed)
    ensures forall k :: k in Listed(RunPrefix(results, n), o) ==> k < n
  {
    if n > 0 {
      ListedBelow(results, n - 1, o);
      StepLists(results, n, o);
    }
  }

  /** The files listed with outcome `o` are in file order. */
  lemma {:induction false} ListedIncreasing(results: seq<FileResult>, n: nat, o: FileOutcome)
    requires n <= |results| && (o == Copied || o == Failed)
    ensures Increasing(Listed(RunPrefix(results, n), o))
  {
    if n > 0 {
      ListedIncreasing(results, n - 1, o);
      ListedBelow(results, n - 1, o);
      StepLists(results, n, o);
      var before := Listed(RunPrefix(results, n - 1), o);
      if RunPrefix(results, n - 1).ended.None? && results[n - 1].outcome == o {
        IncreasingAppend(before, n - 1);
      }
    }
  }

  /** The membership step of `ListedMembers`, on the lists alone. */
  lemma MembersStep(results: seq<FileResult>, n: nat, o: FileOutcome, before: seq<nat>, after: seq<nat>, endedBefore: bool)
    requires 0 < n <= |results|
    requires after == before + (if !endedBefore && results[n - 1].outcome == o then [n - 1] else [])
    requires forall k: nat :: k in before <==> k < n - 1 && Reached(results, k) && results[k].outcome == o
    requires !endedBefore <==> Reached(results, n - 1)
    ensures forall k: nat :: k in after <==> k < n && Reached(results, k) && results[k].outcome == o
  {
    if !endedBefore {
      forall k: nat | k < n ensures Reached(results, k) {
        ReachedPrefix(results, n - 1, k);
      }
    }
  }

  /** `l` holds exactly the files before `n` that were reached and whose
      own outcome is `o`. */
  ghost predicate ListsExactly(results: seq<FileResult>, n: nat, o: FileOutcome, l: seq<nat>)
    requires n <= |results|
  {
    forall k: nat :: k in l <==> k < n && Reached(results, k) && results[k].outcome == o
  }

  /** The files listed with outcome `o` after `n` files are exactly those
      reached whose own outcome is `o`. */
  lemma {:induction false} ListedMembers(results: seq<FileResult>, n: nat, o: FileOutcome)
    requires n <= |results| && (o == Copied || o == Failed)
    ensures ListsExactly(results, n, o, Listed(RunPrefix(results, n), o))
  {
    if n == 0 {
      NothingListedAtStart(results, o);
    } else {
      ListedMembers(results, n - 1, o);
      ListedMembersStep(results, n, o, Listed(RunPrefix(results, n - 1), o));
    }
  }

  lemma NothingListedAtStart(results: seq<FileResult>, o: FileOutcome)
    requires o == Copied || o == Failed
    ensures ListsExactly(results, 0, o, Listed(RunPrefix(results, 0), o))
  {
  }

  /** One file's step of `ListedMembers`. */
  lemma ListedMembersStep(results: seq<FileResult>, n: nat, o: FileOutcome, before: seq<nat>)
    requires 0 < n <= |results| && (o == Copied || o == Failed)
    requires before == Listed(RunPrefix(results, n - 1), o)
    requires ListsExactly(results, n - 1, o, before)
    ensures ListsExactly(results, n, o, Listed(RunPrefix(results, n), o))
  {
    EndedMeaning(results, n - 1);
    StepLists(results, n, o);
    var prev := RunPrefix(results, n - 1);
    MembersStep(results, n, o, before, Listed(RunPrefix(results, n), o), prev.ended.Some?);
  }

  /** What the loop has done after `n` files, stated per file. */
  lemma RunPrefixMeaning(results: seq<FileResult>, n: nat)
    requires n <= |results|
    ensures var st := RunPrefix(results, n);
            && (st.ended.None? <==> Reached(results, n))
            && (forall k: nat :: k in st.copied <==> k < n && Reached(results, k) && results[k].outcome == Copied)
            && (forall k: nat :: k in st.errors <==> k < n && Reached(results, k) && results[k].outcome == Failed)
            && Increasing(st.copied) && Increasing(st.errors)
            && (st.ended.None? ==> st.counter == 1 + Advanced(results, n))
  {
    EndedMeaning(results, n);
    ListedMembers(results, n, Copied);
    ListedMembers(results, n, Failed);
    ListedIncreasing(results, n, Copied);
    ListedIncreasing(results, n, Failed);
  }

  /** The counter value reported for a reached file is one more than the
      earlier files that moved the counter, so a skipped file does not
      advance it; it never exceeds the number of files, so the reported
      percentage stays at most 100. */
  lemma ProgressOfFile(results: seq<FileResult>, k: nat)
    requires k < |results| && Reached(results, k) && results[k].reported
    ensures RunPrefix(results, k + 1).progress == RunPrefix(results, k).progress + [1 + Advanced(results, k)]
    ensures 1 + Advanced(results, k) <= |results|
    ensures results[k].outcome == Skipped ==> Advanced(results, k + 1) == Advanced(results, k)
  {
    EndedMeaning(results, k);
  }

  function Range(n: nat): (r: seq<nat>)
    ensures |r| == n && forall i :: 0 <= i < n ==> r[i] == i
  {
    seq(n, i => i)
  }

  /** With every file copied without effects, every file is copied, once,
      in order, and nothing fails. */
  lemma {:induction false} AllCopied(results: seq<FileResult>, n: nat)
    requires n <= |results|
    requires forall k :: 0 <= k < |results| ==> results[k] == FileResult(Copied, NoEffects, true)
    ensures RunPrefix(results, n).copied == Range(n)
    ensures RunPrefix(results, n).errors == []
    ensures RunPrefix(results, n).ended.None?
    ensures RunPrefix(results, n).effects == NoEffects
  {
    if n > 0 {
      AllCopied(results, n - 1);
      assert Then(NoEffects, NoEffects) == NoEffects;
    }
  }

  /** Once ended, the state no longer changes. */
  lemma {:induction false} EndedStays(results: seq<FileResult>, m: nat, n: nat)
    requires m <= n <= |results| && RunPrefix(results, m).ended.Some?
    ensures RunPrefix(results, n) == RunPrefix(results, m)
    decreases n - m
  {
    if m < n {
      EndedStays(results, m, n - 1);
    }
  }

  /** A file that ends the deployment ends it there: no later file is
      copied or failed. */
  lemma EndedAt(results: seq<FileResult>, k: nat, n: nat)
    requires k < n <= |results| && Reached(results, k) && results[k].outcome.Ended?
    ensures RunPrefix(results, n).ended == Some(results[k].outcome.stillWaiting)
    ensures forall j :: j in RunPrefix(results, n).copied + RunPrefix(results, n).errors ==> j < k
  {
    EndedMeaning(results, k);
    ListedBelow(results, k, Copied);
    ListedBelow(results, k, Failed);
    StepLists(results, k + 1, Copied);
    StepLists(results, k + 1, Failed);
    EndedStays(results, k + 1, n);
  }

  /** The counter is one more than the files copied or failed. */
  lemma {:induction false} CounterCounts(results: seq<FileResult>, n: nat)
    requires n <= |results|
    ensures var st := RunPrefix(results, n);
            st.counter == 1 + |st.copied| + |st.errors| && |st.copied| + |st.errors| <= n
  {
    if n > 0 {
      CounterCounts(results, n - 1);
    }
  }

  /** The loop of `Deploy`, as the source runs it: it returns as soon as a
      file ends the deployment. */
  method DeployFiles(files: seq<FileCopyPair>, scenario: nat -> FileScenario, policy: Policy) returns (st: RunState)
    ensures st == RunPrefix(Results(files, scenario, policy), |files|)
    ensures st.counter == 1 + |st.copied| + |st.errors| && |st.copied| + |st.errors| <= |files|
  {
    ghost var results := Results(files, scenario, policy);
    st := Start;
    var k := 0;
    while k < |files| && st.ended.None?
      invariant k <= |files|
      invariant st == RunPrefix(results, k)
    {
      var r := ProcessFile(files[k], scenario(k), policy);
      st := Step(st, k, r);
      k := k + 1;
    }
    if st.ended.Some? {
      EndedStays(results, k, |files|);
    }
    CounterCounts(results, |files|);
  }

  // ---------------------------------------------------------------------
  // The restart phase

  datatype RestartEvent = StartService(id: nat) | StartFailed(id: nat) | Launch(path: Option<string>) | LaunchFailed(path: Option<string>)

  /** Each recorded service is started if it now reports Stopped; a start
      that throws is reported. */
  function RestartServices(ids: seq<nat>, stoppedNow: nat -> bool, startThrows: nat -> bool): seq<RestartEvent>
    decreases |ids|
  {
    if |ids| == 0 then []
    else
      (if stoppedNow(ids[0]) then [StartService(ids[0])] + (if startThrows(ids[0]) then [StartFailed(ids[0])] else []) else [])
      + RestartServices(ids[1..], stoppedNow, startThrows)
  }

  /** `Process.Start` throws for a start info without a file name, and for
      a path when `launchThrows` says so. */
  predicate LaunchFails(path: Option<string>, launchThrows: string -> bool) {
    path.None? || launchThrows(path.value)
  }

  /** Each killed executable is launched once, in recorded order. */
  function Relaunch(paths: seq<Option<string>>, launchThrows: string -> bool): seq<RestartEvent>
    decreases |paths|
  {
    if |paths| == 0 then []
    else [Launch(paths[0])] + (if LaunchFails(paths[0], launchThrows) then [LaunchFailed(paths[0])] else [])
         + Relaunch(paths[1..], launchThrows)
  }

  /** The services started, in order. */
  function Started(events: seq<RestartEvent>): seq<nat>
    decreases |events|
  {
    if |events| == 0 then [] else (if events[0].StartService? then [events[0].id] else []) + Started(events[1..])
  }

  /** The executables launched, in order. */
  function Launched(events: seq<RestartEvent>): seq<Option<string>>
    decreases |events|
  {
    if |events| == 0 then [] else (if events[0].Launch? then [events[0].path] else []) + Launched(events[1..])
  }

  lemma {:induction false} StartedAppend(a: seq<RestartEvent>, b: seq<RestartEvent>)
    ensures Started(a + b) == Started(a) + Started(b) && Launched(a + b) == Launched(a) + Launched(b)
    decreases |a|
  {
    if |a| == 0 {
      assert a + b == b;
    } else {
      assert (a + b)[0] == a[0] && (a + b)[1..] == a[1..] + b;
      StartedAppend(a[1..], b);
      var s: seq<nat> := if a[0].StartService? then [a[0].id] else [];
      var l: seq<Option<string>> := if a[0].Launch? then [a[0].path] else [];
      assert s + (Started(a[1..]) + Started(b)) == (s + Started(a[1..])) + Started(b);
      assert l + (Launched(a[1..]) + Launched(b)) == (l + Launched(a[1..])) + Launched(b);
    }
  }

  /** Exactly the recorded services that now report Stopped are started, in
      recorded order, and no process is launched by this part. */
  lemma {:induction false} RestartServicesStarts(ids: seq<nat>, stoppedNow: nat -> bool, startThrows: nat -> bool)
    ensures Started(RestartServices(ids, stoppedNow, startThrows)) == Keep(ids, stoppedNow)
    ensures Launched(RestartServices(ids, stoppedNow, startThrows)) == []
    decreases |ids|
  {
    if |ids| > 0 {
      RestartServicesStarts(ids[1..], stoppedNow, startThrows);
      var head: seq<RestartEvent> := if stoppedNow(ids[0]) then [StartService(ids[0])] + (if startThrows(ids[0]) then [StartFailed(ids[0])] else []) else [];
      StartedAppend(head, RestartServices(ids[1..], stoppedNow, startThrows));
      if stoppedNow(ids[0]) {
        StartedAppend([StartService(ids[0])], if startThrows(ids[0]) then [StartFailed(ids[0])] else []);
      }
    }
  }

  /** Every killed executable is launched exactly once, in order, whether
      or not launching throws. */
  lemma {:induction false} RelaunchLaunchesAll(paths: seq<Option<string>>, launchThrows: string -> bool)
    ensures Launched(Relaunch(paths, launchThrows)) == paths
    ensures Started(Relaunch(paths, launchThrows)) == []
    decreases |paths|
  {
    if |paths| > 0 {
      RelaunchLaunchesAll(paths[1..], launchThrows);
      var head: seq<RestartEvent> := [Launch(paths[0])] + (if LaunchFails(paths[0], launchThrows) then [LaunchFailed(paths[0])] else []);
      StartedAppend(head, Relaunch(paths[1..], launchThrows));
      StartedAppend([Launch(paths[0])], if LaunchFails(paths[0], launchThrows) then [LaunchFailed(paths[0])] else []);
    }
  }

  /** A launch is reported as failed exactly when some recorded entry with
      that path fails to launch: in particular every null entry is. */
  lemma {:induction false} RelaunchFailures(paths: seq<Option<string>>, launchThrows: string -> bool, p: Option<string>)
    ensures LaunchFailed(p) in Relaunch(paths, launchThrows) <==>
              exists k :: 0 <= k < |paths| && paths[k] == p && LaunchFails(p, launchThrows)
    decreases |paths|
  {
    if |paths| > 0 {
      RelaunchFailures(paths[1..], launchThrows, p);
      var head: seq<RestartEvent> := [Launch(paths[0])] + (if LaunchFails(paths[0], launchThrows) then [LaunchFailed(paths[0])] else []);
      assert Relaunch(paths, launchThrows) == head + Relaunch(paths[1..], launchThrows);
      if exists k :: 0 <= k < |paths| && paths[k] == p && LaunchFails(p, launchThrows) {
        var k :| 0 <= k < |paths| && paths[k] == p && LaunchFails(p, launchThrows);
        if k > 0 {
          assert paths[1..][k - 1] == p;
        }
      }
      if exists k :: 0 <= k < |paths[1..]| && paths[1..][k] == p && LaunchFails(p, launchThrows) {
        var k :| 0 <= k < |paths[1..]| && paths[1..][k] == p && LaunchFails(p, launchThrows);
        assert paths[k + 1] == p;
      }
    }
  }

  /** A whole deployment: the loop, then the restart phase. */
  datatype DeployRun = DeployRun(state: RunState, restarts: seq<RestartEvent>)

  function Deploy(item: DeploymentItem, scenario: nat -> FileScenario,
                  stoppedNow: nat -> bool, startThrows: nat -> bool, launchThrows: string -> bool): (r: DeployRun)
    ensures r.state == RunPrefix(Results(item.filesToCopy, scenario, item.policy), |item.filesToCopy|)
    ensures r.state.ended.Some? || !item.policy.restartKilledProcesses ==> r.restarts == []
  {
    var st := RunPrefix(Results(item.filesToCopy, scenario, item.policy), |item.filesToCopy|);
    if st.ended.None? && item.policy.restartKilledProcesses then
      DeployRun(st, RestartServices(st.effects.stoppedServices, stoppedNow, startThrows) + Relaunch(st.effects.killedProcesses, launchThrows))
    else DeployRun(st, [])
  }

  /** When the loop completes and restarting is on, the services that
      report Stopped are started in recorded order and every killed
      executable is launched once, in recorded order. */
  lemma DeployRestarts(item: DeploymentItem, scenario: nat -> FileScenario,
                       stoppedNow: nat -> bool, startThrows: nat -> bool, launchThrows: string -> bool)
    requires item.policy.restartKilledProcesses
    requires RunPrefix(Results(item.filesToCopy, scenario, item.policy), |item.filesToCopy|).ended.None?
    ensures var r := Deploy(item, scenario, stoppedNow, startThrows, launchThrows);
            && Started(r.restarts) == Keep(r.state.effects.stoppedServices, stoppedNow)
            && Launched(r.restarts) == r.state.effects.killedProcesses
  {
    var st := RunPrefix(Results(item.filesToCopy, scenario, item.policy), |item.filesToCopy|);
    RestartServicesStarts(st.effects.stoppedServices, stoppedNow, startThrows);
    RelaunchLaunchesAll(st.effects.killedProcesses, launchThrows);
    StartedAppend(RestartServices(st.effects.stoppedServices, stoppedNow, startThrows), Relaunch(st.effects.killedProcesses, launchThrows));
  }

  /** Deploying what has nothing in the way copies every file exactly once,
      in order, and restarts nothing. */
  lemma CleanDeployment(item: DeploymentItem, scenario: nat -> FileScenario,
                        stoppedNow: nat -> bool, startThrows: nat -> bool, launchThrows: string -> bool)
    requires forall k :: 0 <= k < |item.filesToCopy| ==> Clean(item.filesToCopy[k], scenario(k))
    ensures var r := Deploy(item, scenario, stoppedNow, startThrows, launchThrows);
            && r.state.copied == Range(|item.filesToCopy|) && r.state.errors == [] && r.state.ended.None?
            && r.restarts == []
  {
    var results := Results(item.filesToCopy, scenario, item.policy);
    forall k | 0 <= k < |item.filesToCopy| ensures results[k] == FileResult(Copied, NoEffects, true) {
      CleanFileIsCopied(item.filesToCopy[k], scenario(k), item.policy);
    }
    AllCopied(results, |results|);
  }

  /** Cancellation seen at the top of the loop for a reached file ends the
      deployment there: no later file is copied or failed, and nothing is
      restarted. */
  lemma CancelledDeployment(item: DeploymentItem, scenario: nat -> FileScenario,
                            stoppedNow: nat -> bool, startThrows: nat -> bool, launchThrows: string -> bool, k: nat)
    requires k < |item.filesToCopy| && scenario(k).cancelled
    requires Reached(Results(item.filesToCopy, scenario, item.policy), k)
    ensures var r := Deploy(item, scenario, stoppedNow, startThrows, launchThrows);
            && r.state.ended == Some(false) && r.restarts == []
            && forall j :: j in r.state.copied + r.state.errors ==> j < k
  {
    EndedAt(Results(item.filesToCopy, scenario, item.policy), k, |item.filesToCopy|);
  }
}
