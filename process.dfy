/** The process table shared by every scheduling policy.
    Each row of the source's `processArray` is a `Proc`; the engines update
    a row by overwriting its array cell with a record whose derived fields
    (finish, wait, turnaround, executed) have changed. */
module Processes {

  /** One process: the three input fields read from the workload file and
      the four fields the simulation fills in. */
  datatype Proc = Proc(
    pId: int,
    arrivalTime: int,
    cpuBurstTime: int,
    finishTime: int,
    waitTime: int,
    turnArndTime: int,
    executed: bool)

  /** The record with its derived fields cleared, as a reset leaves it. */
  function Cleared(r: Proc): Proc
  {
    r.(finishTime := 0, waitTime := 0, turnArndTime := 0, executed := false)
  }

  function ClearedAll(s: seq<Proc>): (c: seq<Proc>)
    ensures |c| == |s|
  {
    seq(|s|, i requires 0 <= i < |s| => Cleared(s[i]))
  }

  /** Two tables that agree, row by row, on the input fields. */
  predicate SameInputs(s: seq<Proc>, t: seq<Proc>)
  {
    |s| == |t| &&
    forall i :: 0 <= i < |s| ==>
      s[i].pId == t[i].pId && s[i].arrivalTime == t[i].arrivalTime &&
      s[i].cpuBurstTime == t[i].cpuBurstTime
  }

  predicate SortedByArrival(s: seq<Proc>)
  {
    forall i, j :: 0 <= i < j < |s| ==> s[i].arrivalTime <= s[j].arrivalTime
  }

  predicate SortedByPid(s: seq<Proc>)
  {
    forall i, j :: 0 <= i < j < |s| ==> s[i].pId <= s[j].pId
  }

  predicate PositiveBursts(s: seq<Proc>)
  {
    forall i :: 0 <= i < |s| ==> s[i].cpuBurstTime > 0
  }

  predicate NoneExecuted(s: seq<Proc>)
  {
    forall i :: 0 <= i < |s| ==> !s[i].executed
  }

  predicate AllExecuted(s: seq<Proc>)
  {
    forall i :: 0 <= i < |s| ==> s[i].executed
  }

  /** What every engine relies on: at least one process (each engine reads
      `processArray[0]`), positive bursts, arrival order, and a freshly reset
      table. */
  predicate Runnable(s: seq<Proc>)
  {
    |s| > 0 && PositiveBursts(s) && SortedByArrival(s) && NoneExecuted(s)
  }

  /** Row i has arrived by `clock` and has not run to completion: the
      rows the Shortest-Job-First and Shortest-Remaining-Time-First scans
      may choose from. */
  predicate Eligible(s: seq<Proc>, i: int, clock: int)
    requires 0 <= i < |s|
  {
    s[i].arrivalTime <= clock && !s[i].executed
  }

  /** Number of executed rows. */
  function CountExecuted(s: seq<Proc>): (c: nat)
    ensures c <= |s|
  {
    if s == [] then 0
    else CountExecuted(s[..|s| - 1]) + (if s[|s| - 1].executed then 1 else 0)
  }

  lemma {:induction false} CountExecutedNone(s: seq<Proc>)
    requires NoneExecuted(s)
    ensures CountExecuted(s) == 0
  {
    if s != [] {
      CountExecutedNone(s[..|s| - 1]);
    }
  }

  /** All rows are executed exactly when the count reaches the table size. */
  lemma {:induction false} CountExecutedFull(s: seq<Proc>)
    ensures CountExecuted(s) == |s| <==> AllExecuted(s)
  {
    if s != [] {
      CountExecutedFull(s[..|s| - 1]);
      assert forall i :: 0 <= i < |s| - 1 ==> s[..|s| - 1][i] == s[i];
    }
  }

  /** Marking one unexecuted row as executed raises the count by one. */
  lemma {:induction false} CountExecutedMark(s: seq<Proc>, k: nat, r: Proc)
    requires k < |s| && !s[k].executed && r.executed
    ensures CountExecuted(s[k := r]) == CountExecuted(s) + 1
  {
    var t := s[k := r];
    if k < |s| - 1 {
      assert t[..|t| - 1] == s[..|s| - 1][k := r];
      CountExecutedMark(s[..|s| - 1], k, r);
    } else {
      assert t[..|t| - 1] == s[..|s| - 1];
    }
  }

  /** resetProcessDetail: clears finish, wait, turnaround and executed of
      every row and leaves the input fields alone. */
  method ResetProcessDetail(a: array<Proc>)
    modifies a
    ensures a[..] == ClearedAll(old(a[..]))
    ensures SameInputs(a[..], old(a[..])) && NoneExecuted(a[..])
  {
    for i := 0 to a.Length
      invariant forall k :: 0 <= k < i ==> a[k] == Cleared(old(a[k]))
      invariant forall k :: i <= k < a.Length ==> a[k] == old(a[k])
    {
      a[i] := a[i].(waitTime := 0);
      a[i] := a[i].(turnArndTime := 0);
      a[i] := a[i].(finishTime := 0);
      a[i] := a[i].(executed := false);
    }
  }

  /** Resetting twice is the same as resetting once, and a reset table
      keeps its input fields. */
  lemma ClearedAllIdempotent(s: seq<Proc>)
    ensures ClearedAll(ClearedAll(s)) == ClearedAll(s)
    ensures SameInputs(ClearedAll(s), s) && NoneExecuted(ClearedAll(s))
  {
  }
}
