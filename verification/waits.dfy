/** The polling waits of the deployment: each loop re-reads a condition
    (a process has exited, a service reports Stopped, a file has the wanted
    attributes, a file or directory is gone) and the cancellation flag until
    one of them decides. The observations the loop makes are given as a
    finite trace; a trace that never decides stands for a loop that is
    still waiting. */
module Waits {
  /** One pass of a waiting loop: whether the awaited condition held, and
      whether cancellation had been requested by then. */
  datatype Poll = Poll(done: bool, cancelled: bool)

  /** How a wait ends: true, false, still polling when the trace runs out,
      or an exception before the first poll. */
  datatype WaitResult = Satisfied | Cancelled | Hung | Threw

  /** The pass `i` of the trace is the first that decides. */
  predicate DecidesAt(trace: seq<Poll>, i: int) {
    && 0 <= i < |trace| && (trace[i].done || trace[i].cancelled)
    && forall j :: 0 <= j < i ==> !trace[j].done && !trace[j].cancelled
  }

  /** The common loop of the `WaitFor*` helpers. The condition is tested
      before the cancellation flag. */
  function WaitUntil(trace: seq<Poll>): (r: WaitResult)
    ensures r == Hung <==> forall i :: 0 <= i < |trace| ==> !trace[i].done && !trace[i].cancelled
    ensures r == Satisfied <==> exists i :: DecidesAt(trace, i) && trace[i].done
    ensures r == Cancelled <==> exists i :: DecidesAt(trace, i) && !trace[i].done
    ensures r != Threw
    decreases |trace|
  {
    if |trace| == 0 then Hung
    else if trace[0].done then
      assert DecidesAt(trace, 0);
      Satisfied
    else if trace[0].cancelled then
      assert DecidesAt(trace, 0);
      Cancelled
    else
      var r := WaitUntil(trace[1..]);
      assert forall i :: 0 < i < |trace| ==> trace[i] == trace[1..][i - 1];
      assert forall i :: DecidesAt(trace[1..], i) ==> DecidesAt(trace, i + 1);
      assert forall i :: DecidesAt(trace, i) ==> i > 0 && DecidesAt(trace[1..], i - 1);
      r
  }

  /** The first deciding pass is final: passes after it are never looked
      at; a trace that has not decided yet leaves the decision to the
      passes that follow. */
  lemma {:induction false} WaitUntilAppend(a: seq<Poll>, b: seq<Poll>)
    ensures WaitUntil(a) != Hung ==> WaitUntil(a + b) == WaitUntil(a)
    ensures WaitUntil(a) == Hung ==> WaitUntil(a + b) == WaitUntil(b)
    decreases |a|
  {
    if |a| == 0 {
      assert a + b == b;
    } else {
      assert (a + b)[0] == a[0] && (a + b)[1..] == a[1..] + b;
      WaitUntilAppend(a[1..], b);
    }
  }

  /** When the condition already holds and cancellation was requested at
      the same time, the wait still reports success. */
  lemma ConditionBeforeCancellation(trace: seq<Poll>)
    requires |trace| > 0 && trace[0].done && trace[0].cancelled
    ensures WaitUntil(trace) == Satisfied
  {
  }

  /** `WaitForFileToHaveAttributes`: the attributes are set once before the
      loop, and that call may throw. */
  function WaitForAttributes(setAttributesThrows: bool, trace: seq<Poll>): (r: WaitResult)
    ensures setAttributesThrows <==> r == Threw
    ensures !setAttributesThrows ==> r == WaitUntil(trace)
  {
    if setAttributesThrows then Threw else WaitUntil(trace)
  }
}
