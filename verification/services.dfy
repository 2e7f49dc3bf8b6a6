/** `StopServiceAndDependencies`: stopping a locking service stops every
    service that depends on it first, recursively, and returns the services
    it stopped. Each controller object is a node of the dependency tree as
    the recursion visits it; what the platform reports about it (whether it
    is running at that visit, whether a process was found for it, whether
    `Stop`/`Kill` throws, and the polls of the wait that follows) is part
    of the node. */
module Services {
  import opened Sequences
  import opened Options
  import opened Waits

  datatype ServiceNode = ServiceNode(
    /** The controller object; distinct objects have distinct ids. */
    id: nat,
    dependents: seq<ServiceNode>,
    /** The status read by `Refresh` at this visit is Running. */
    running: bool,
    /** `GetProcessFromService` found a process (for dependents). */
    hasProcess: bool,
    /** `Stop` or `Kill` throws. */
    actionThrows: bool,
    /** The polls of the wait for the service or process to exit. */
    exitWait: seq<Poll>)

  /** What the recursion asks of the platform, in order. A failing action
      is reported on the error channel and the recursion goes on. */
  datatype Action = StopRequested(id: nat) | KillRequested(id: nat) | ActionFailed(id: nat)

  /** The result of an operation that may be cancelled (the source returns
      null or false) or may still be waiting. */
  datatype Flow<T> = Done(value: T) | Aborted | Waiting

  function Size(n: ServiceNode): nat {
    1 + SizeList(n.dependents)
  }

  function SizeList(ns: seq<ServiceNode>): nat {
    if |ns| == 0 then 0 else Size(ns[0]) + SizeList(ns[1..])
  }

  /** Stops `n` after its dependents. `hasProcess` is whether a process
      goes with the service: for the locking service, the locking process;
      for a dependent, the result of the process lookup. */
  function StopTree(n: ServiceNode, stopMethod: StopServiceMethods, hasProcess: bool): (r: (Flow<seq<nat>>, seq<Action>))
    ensures r.0.Done? ==> NoDuplicates(r.0.value)
    decreases Size(n), 1
  {
    var (children, actions) := StopList(n.dependents, stopMethod, []);
    match children
    case Done(all) =>
      var (r, more) := StopSelf(n, stopMethod, hasProcess, all);
      (r, actions + more)
    case Aborted => (Aborted, actions)
    case Waiting => (Waiting, actions)
  }

  /** The part after the loop: a running service is added to the set and
      stopped or killed, and the wait for its exit decides the result,
      which is the set in reverse. */
  function StopSelf(n: ServiceNode, stopMethod: StopServiceMethods, hasProcess: bool, all: seq<nat>): (r: (Flow<seq<nat>>, seq<Action>))
    ensures NoDuplicates(all) && r.0.Done? ==> NoDuplicates(r.0.value)
    ensures r.0.Done? ==> r.0.value == Reverse(if n.running then Union(all, [n.id]) else all)
    ensures !n.running ==> r == (Done(Reverse(all)), [])
  {
    if !n.running then
      ReverseElements(all);
      (Done(Reverse(all)), [])
    else
      var all' := Union(all, [n.id]);
      ReverseElements(all');
      var act := if stopMethod == StopServiceMethods.Kill && hasProcess then KillRequested(n.id) else StopRequested(n.id);
      if n.actionThrows then (Done(Reverse(all')), [act, ActionFailed(n.id)])
      else
        match WaitUntil(n.exitWait)
        case Satisfied => (Done(Reverse(all')), [act])
        case Cancelled => (Aborted, [act])
        case _ => (Waiting, [act])
  }

  /** The loop over the dependents, adding each one's result to the set
      `acc`; the first cancelled or unfinished dependent ends it. */
  function StopList(ns: seq<ServiceNode>, stopMethod: StopServiceMethods, acc: seq<nat>): (r: (Flow<seq<nat>>, seq<Action>))
    ensures NoDuplicates(acc) && r.0.Done? ==> NoDuplicates(r.0.value)
    decreases SizeList(ns), 2
  {
    if |ns| == 0 then (Done(acc), [])
    else
      var (first, actions) := StopTree(ns[0], stopMethod, ns[0].hasProcess);
      match first
      case Done(s) =>
        var (rest, more) := StopList(ns[1..], stopMethod, Union(acc, s));
        (rest, actions + more)
      case Aborted => (Aborted, actions)
      case Waiting => (Waiting, actions)
  }

  // ---------------------------------------------------------------------
  // Reference descriptions

  /** The ids of the nodes that were running, in pre-order. */
  function RunningIds(n: ServiceNode): seq<nat>
    decreases Size(n), 1
  {
    (if n.running then [n.id] else []) + RunningIdsList(n.dependents)
  }

  function RunningIdsList(ns: seq<ServiceNode>): seq<nat>
    decreases SizeList(ns), 2
  {
    if |ns| == 0 then [] else RunningIds(ns[0]) + RunningIdsList(ns[1..])
  }

  /** Every id in the tree, in pre-order. */
  function AllIds(n: ServiceNode): seq<nat>
    decreases Size(n), 1
  {
    [n.id] + AllIdsList(n.dependents)
  }

  function AllIdsList(ns: seq<ServiceNode>): seq<nat>
    decreases SizeList(ns), 2
  {
    if |ns| == 0 then [] else AllIds(ns[0]) + AllIdsList(ns[1..])
  }

  /** The order the recursion returns, stated without reversal: a running
      node comes first, then its dependents from last to first, each in
      ascending order. */
  function Descending(n: ServiceNode): seq<nat>
    decreases Size(n), 1
  {
    (if n.running then [n.id] else []) + DescendingList(n.dependents)
  }

  function DescendingList(ns: seq<ServiceNode>): seq<nat>
    decreases SizeList(ns), 2
  {
    if |ns| == 0 then []
    else
      assert Size(ns[0]) >= 1;
      DescendingList(ns[1..]) + Ascending(ns[0])
  }

  /** The mirror order: dependents from first to last, each in descending
      order, then the node if it was running. */
  function Ascending(n: ServiceNode): seq<nat>
    decreases Size(n), 1
  {
    AscendingList(n.dependents) + (if n.running then [n.id] else [])
  }

  function AscendingList(ns: seq<ServiceNode>): seq<nat>
    decreases SizeList(ns), 2
  {
    if |ns| == 0 then [] else Descending(ns[0]) + AscendingList(ns[1..])
  }

  /** The two orders are each other's reversal. */
  lemma {:induction false} DescendingIsReversed(n: ServiceNode)
    ensures Descending(n) == Reverse(Ascending(n))
    decreases Size(n), 1
  {
    DescendingListIsReversed(n.dependents);
    ReverseAppend(AscendingList(n.dependents), if n.running then [n.id] else []);
  }

  lemma {:induction false} DescendingListIsReversed(ns: seq<ServiceNode>)
    ensures DescendingList(ns) == Reverse(AscendingList(ns))
    decreases SizeList(ns), 2
  {
    if |ns| > 0 {
      DescendingIsReversed(ns[0]);
      DescendingListIsReversed(ns[1..]);
      ReverseReverse(Ascending(ns[0]));
      ReverseAppend(Descending(ns[0]), AscendingList(ns[1..]));
    }
  }

  /** Both orders hold exactly the running nodes' ids, within the tree. */
  lemma {:induction false} AscendingElements(n: ServiceNode)
    ensures forall x :: x in Ascending(n) <==> x in RunningIds(n)
    ensures forall x :: x in RunningIds(n) ==> x in AllIds(n)
    decreases Size(n), 1
  {
    AscendingListElements(n.dependents);
  }

  lemma {:induction false} AscendingListElements(ns: seq<ServiceNode>)
    ensures forall x :: x in AscendingList(ns) <==> x in RunningIdsList(ns)
    ensures forall x :: x in RunningIdsList(ns) ==> x in AllIdsList(ns)
    decreases SizeList(ns), 2
  {
    if |ns| > 0 {
      AscendingElements(ns[0]);
      AscendingListElements(ns[1..]);
      DescendingIsReversed(ns[0]);
      ReverseElements(Ascending(ns[0]));
    }
  }

  lemma DescendingElements(n: ServiceNode)
    ensures forall x :: x in Descending(n) <==> x in RunningIds(n)
  {
    AscendingElements(n);
    DescendingIsReversed(n);
    ReverseElements(Ascending(n));
  }

  // ---------------------------------------------------------------------
  // The result of the recursion

  /** With distinct controller objects, a completed stop returns exactly
      the order `Descending`: the reversal at every level, not a global
      dependency order. */
  lemma {:induction false} StopTreeOrder(n: ServiceNode, stopMethod: StopServiceMethods, hasProcess: bool)
    requires NoDuplicates(AllIds(n))
    requires StopTree(n, stopMethod, hasProcess).0.Done?
    ensures StopTree(n, stopMethod, hasProcess).0.value == Descending(n)
    decreases Size(n), 0
  {
    var children := StopList(n.dependents, stopMethod, []).0;
    assert children.Done?;
    var all := children.value;
    NoDuplicatesAppend([n.id], AllIdsList(n.dependents));
    StopListOrder(n.dependents, stopMethod, []);
    assert all == AscendingList(n.dependents);
    var r := StopTree(n, stopMethod, hasProcess).0;
    assert r == StopSelf(n, stopMethod, hasProcess, all).0;
    var members := if n.running then Union(all, [n.id]) else all;
    assert r.value == Reverse(members);
    if n.running {
      AscendingListElements(n.dependents);
      UnionDisjoint(all, [n.id]);
      assert members == AscendingList(n.dependents) + [n.id];
    }
    assert members == Ascending(n);
    DescendingIsReversed(n);
  }

  lemma {:induction false} StopListOrder(ns: seq<ServiceNode>, stopMethod: StopServiceMethods, acc: seq<nat>)
    requires NoDuplicates(AllIdsList(ns))
    requires forall x :: x in acc ==> x !in AllIdsList(ns)
    requires StopList(ns, stopMethod, acc).0.Done?
    ensures StopList(ns, stopMethod, acc).0.value == acc + AscendingList(ns)
    decreases SizeList(ns), 3
  {
    if |ns| > 0 {
      var s := StopTree(ns[0], stopMethod, ns[0].hasProcess).0.value;
      StopListOrderStep(ns, stopMethod, acc);
      StopListOrder(ns[1..], stopMethod, acc + s);
      AppendAssociative(acc, s, AscendingList(ns[1..]));
    }
  }

  /** What one turn of the loop contributes: the first dependent's order,
      added as new elements. */
  lemma {:induction false} StopListOrderStep(ns: seq<ServiceNode>, stopMethod: StopServiceMethods, acc: seq<nat>)
    requires |ns| > 0
    requires NoDuplicates(AllIdsList(ns))
    requires forall x :: x in acc ==> x !in AllIdsList(ns)
    requires StopList(ns, stopMethod, acc).0.Done?
    ensures var s := StopTree(ns[0], stopMethod, ns[0].hasProcess).0.value;
            && StopList(ns, stopMethod, acc).0 == StopList(ns[1..], stopMethod, acc + s).0
            && AscendingList(ns) == s + AscendingList(ns[1..])
            && NoDuplicates(AllIdsList(ns[1..]))
            && (forall x :: x in acc + s ==> x !in AllIdsList(ns[1..]))
            && SizeList(ns[1..]) < SizeList(ns)
    decreases SizeList(ns), 2
  {
    var s := StopTree(ns[0], stopMethod, ns[0].hasProcess).0.value;
    StopListStep(ns, stopMethod, acc);
    FirstDependentOrder(ns, stopMethod, acc);
    SiblingsDisjoint(ns, acc, s);
  }

  /** The first dependent's result, when the loop completes. */
  lemma {:induction false} FirstDependentOrder(ns: seq<ServiceNode>, stopMethod: StopServiceMethods, acc: seq<nat>)
    requires |ns| > 0 && StopList(ns, stopMethod, acc).0.Done?
    requires NoDuplicates(AllIdsList(ns))
    ensures var s := StopTree(ns[0], stopMethod, ns[0].hasProcess).0.value;
            && s == Descending(ns[0])
            && (forall x :: x in s ==> x in AllIds(ns[0]))
            && AscendingList(ns) == s + AscendingList(ns[1..])
            && NoDuplicates(s)
    decreases SizeList(ns), 1
  {
    StopListStep(ns, stopMethod, acc);
    assert SizeList(ns) == Size(ns[0]) + SizeList(ns[1..]);
    assert AllIdsList(ns) == AllIds(ns[0]) + AllIdsList(ns[1..]);
    NoDuplicatesAppend(AllIds(ns[0]), AllIdsList(ns[1..]));
    StopTreeOrder(ns[0], stopMethod, ns[0].hasProcess);
    DescendingElements(ns[0]);
    AscendingElements(ns[0]);
  }

  /** One turn of the loop over the dependents, when the first completes. */
  lemma StopListStep(ns: seq<ServiceNode>, stopMethod: StopServiceMethods, acc: seq<nat>)
    requires |ns| > 0 && StopList(ns, stopMethod, acc).0.Done?
    ensures StopTree(ns[0], stopMethod, ns[0].hasProcess).0.Done?
    ensures StopList(ns, stopMethod, acc).0 ==
              StopList(ns[1..], stopMethod, Union(acc, StopTree(ns[0], stopMethod, ns[0].hasProcess).0.value)).0
    ensures SizeList(ns[1..]) < SizeList(ns)
  {
  }

  /** The ids gathered so far stay apart from the ids of the dependents
      still to visit. */
  lemma SiblingsDisjoint(ns: seq<ServiceNode>, acc: seq<nat>, s: seq<nat>)
    requires |ns| > 0 && NoDuplicates(AllIdsList(ns)) && NoDuplicates(s)
    requires forall x :: x in acc ==> x !in AllIdsList(ns)
    requires forall x :: x in s ==> x in AllIds(ns[0])
    ensures Union(acc, s) == acc + s
    ensures NoDuplicates(AllIdsList(ns[1..]))
    ensures forall x :: x in acc + s ==> x !in AllIdsList(ns[1..])
  {
    assert AllIdsList(ns) == AllIds(ns[0]) + AllIdsList(ns[1..]);
    NoDuplicatesAppend(AllIds(ns[0]), AllIdsList(ns[1..]));
    UnionDisjoint(acc, s);
  }

  /** A completed stop returns each running node once and nothing else,
      and a running locking service comes first. */
  lemma StopTreeElements(n: ServiceNode, stopMethod: StopServiceMethods, hasProcess: bool)
    requires NoDuplicates(AllIds(n))
    requires StopTree(n, stopMethod, hasProcess).0.Done?
    ensures var s := StopTree(n, stopMethod, hasProcess).0.value;
            && NoDuplicates(s)
            && (forall x :: x in s <==> x in RunningIds(n))
            && (n.running ==> s[0] == n.id)
  {
    StopTreeOrder(n, stopMethod, hasProcess);
    DescendingElements(n);
  }

  // ---------------------------------------------------------------------
  // When the recursion completes

  /** Every running node whose action does not throw sees its exit. */
  predicate AllExitsSeen(n: ServiceNode)
    decreases Size(n), 1
  {
    && (n.running && !n.actionThrows ==> WaitUntil(n.exitWait) == Satisfied)
    && AllExitsSeenList(n.dependents)
  }

  predicate AllExitsSeenList(ns: seq<ServiceNode>)
    decreases SizeList(ns), 2
  {
    |ns| == 0 || (AllExitsSeen(ns[0]) && AllExitsSeenList(ns[1..]))
  }

  /** Some running node's wait saw the cancellation. */
  predicate SomeWaitCancelled(n: ServiceNode)
    decreases Size(n), 1
  {
    || (n.running && !n.actionThrows && WaitUntil(n.exitWait) == Cancelled)
    || SomeWaitCancelledList(n.dependents)
  }

  predicate SomeWaitCancelledList(ns: seq<ServiceNode>)
    decreases SizeList(ns), 2
  {
    |ns| > 0 && (SomeWaitCancelled(ns[0]) || SomeWaitCancelledList(ns[1..]))
  }

  /** The recursion completes when every wait sees its exit, and returns
      null only because some wait saw the cancellation. */
  lemma {:induction false} StopTreeOutcome(n: ServiceNode, stopMethod: StopServiceMethods, hasProcess: bool)
    ensures AllExitsSeen(n) ==> StopTree(n, stopMethod, hasProcess).0.Done?
    ensures StopTree(n, stopMethod, hasProcess).0.Aborted? ==> SomeWaitCancelled(n)
    decreases Size(n), 1
  {
    StopListOutcome(n.dependents, stopMethod, []);
  }

  lemma {:induction false} StopListOutcome(ns: seq<ServiceNode>, stopMethod: StopServiceMethods, acc: seq<nat>)
    ensures AllExitsSeenList(ns) ==> StopList(ns, stopMethod, acc).0.Done?
    ensures StopList(ns, stopMethod, acc).0.Aborted? ==> SomeWaitCancelledList(ns)
    decreases SizeList(ns), 2
  {
    if |ns| > 0 {
      StopTreeOutcome(ns[0], stopMethod, ns[0].hasProcess);
      var (first, _) := StopTree(ns[0], stopMethod, ns[0].hasProcess);
      if first.Done? {
        StopListOutcome(ns[1..], stopMethod, Union(acc, first.value));
      }
    }
  }

  /** Each running node gets exactly one stop or kill request; a kill is
      requested only under the Kill stopMethod and when a process goes with
      the service. */
  lemma {:induction false} StopTreeRequests(n: ServiceNode, stopMethod: StopServiceMethods, hasProcess: bool)
    requires StopTree(n, stopMethod, hasProcess).0.Done?
    ensures var actions := StopTree(n, stopMethod, hasProcess).1;
            && (forall a :: a in actions && !a.ActionFailed? ==> a.id in RunningIds(n))
            && (n.running ==> (KillRequested(n.id) in actions <==> stopMethod == StopServiceMethods.Kill && hasProcess) || n.id in RunningIdsList(n.dependents))
    decreases Size(n), 1
  {
    StopListRequests(n.dependents, stopMethod, []);
  }

  lemma {:induction false} StopListRequests(ns: seq<ServiceNode>, stopMethod: StopServiceMethods, acc: seq<nat>)
    requires StopList(ns, stopMethod, acc).0.Done?
    ensures forall a :: a in StopList(ns, stopMethod, acc).1 && !a.ActionFailed? ==> a.id in RunningIdsList(ns)
    decreases SizeList(ns), 2
  {
    if |ns| > 0 {
      var (first, _) := StopTree(ns[0], stopMethod, ns[0].hasProcess);
      StopTreeRequests(ns[0], stopMethod, ns[0].hasProcess);
      StopListRequests(ns[1..], stopMethod, Union(acc, first.value));
    }
  }

  // ---------------------------------------------------------------------
  // Examples

  /** A running service whose wait ends at once. */
  function Quick(id: nat, dependents: seq<ServiceNode>): ServiceNode {
    ServiceNode(id, dependents, true, true, false, [Poll(true, false)])
  }

  /** A running service with one dependent: its orders in terms of the
      dependent's. */
  lemma OneDependent(id: nat, child: ServiceNode)
    ensures AllIds(Quick(id, [child])) == [id] + AllIds(child)
    ensures Descending(Quick(id, [child])) == [id] + Ascending(child)
    ensures Ascending(Quick(id, [child])) == Descending(child) + [id]
    ensures AllExitsSeen(child) ==> AllExitsSeen(Quick(id, [child]))
  {
    assert [child][1..] == [];
    assert AllIdsList([child]) == AllIds(child) + AllIdsList([]);
    assert DescendingList([child]) == DescendingList([]) + Ascending(child);
    assert AscendingList([child]) == Descending(child) + AscendingList([]);
  }

  lemma NoDependent(id: nat)
    ensures AllIds(Quick(id, [])) == [id]
    ensures Descending(Quick(id, [])) == [id] && Ascending(Quick(id, [])) == [id]
    ensures AllExitsSeen(Quick(id, []))
  {
  }

  /** For a chain S1 ← S2 (S2 depends on S1), stopping S1 returns
      [S1, S2]: restarting in that order starts S1 first. */
  lemma ChainOfTwo(s1: nat, s2: nat, stopMethod: StopServiceMethods)
    requires s1 != s2
    ensures StopTree(Quick(s1, [Quick(s2, [])]), stopMethod, true).0 == Done([s1, s2])
  {
    var n := Quick(s1, [Quick(s2, [])]);
    assert AllIds(n) == [s1, s2] && Descending(n) == [s1, s2] && AllExitsSeen(n) by {
      NoDependent(s2);
      OneDependent(s1, Quick(s2, []));
    }
    assert NoDuplicates(AllIds(n));
    StopTreeOutcome(n, stopMethod, true);
    StopTreeOrder(n, stopMethod, true);
  }

  /** For a chain S1 ← S2 ← S3, stopping S1 returns [S1, S3, S2]: the
      service deepest in the chain is not last. */
  lemma ChainOfThree(s1: nat, s2: nat, s3: nat, stopMethod: StopServiceMethods)
    requires s1 != s2 && s2 != s3 && s1 != s3
    ensures StopTree(Quick(s1, [Quick(s2, [Quick(s3, [])])]), stopMethod, true).0 == Done([s1, s3, s2])
  {
    var middle := Quick(s2, [Quick(s3, [])]);
    var n := Quick(s1, [middle]);
    NoDependent(s3);
    OneDependent(s2, Quick(s3, []));
    OneDependent(s1, middle);
    assert AllIds(n) == [s1, s2, s3] && Descending(n) == [s1, s3, s2];
    StopTreeOutcome(n, stopMethod, true);
    StopTreeOrder(n, stopMethod, true);
  }

  lemma AppendAssociative(a: seq<nat>, b: seq<nat>, c: seq<nat>)
    ensures a + b + c == a + (b + c)
  {
  }
}
