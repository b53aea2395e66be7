/** Short Job First, non-preemptive (class ShortJobFirst): repeatedly run,
    to completion, the arrived and unexecuted row with the smallest burst;
    when none has arrived, advance the clock by one tick. */
module ShortJobFirst {
  import opened Processes
  import opened Timeline

  /** The time a row that ran without interruption started. */
  function Start(r: Proc): int
  {
    r.finishTime - r.cpuBurstTime
  }

  /** The shortest-job-first choice: whenever row j was dispatched, every
      row k that had arrived by then and started later (or not yet) has a
      burst at least as long, and strictly longer when k comes before j in
      the table (the first row wins ties). */
  ghost predicate ShortestFirst(s: seq<Proc>)
  {
    forall j, k ::
      (0 <= j < |s| && 0 <= k < |s| && s[j].executed &&
       s[k].arrivalTime <= Start(s[j]) && (!s[k].executed || Start(s[k]) > Start(s[j]))) ==>
      s[j].cpuBurstTime <= s[k].cpuBurstTime && (k < j ==> s[j].cpuBurstTime < s[k].cpuBurstTime)
  }

  /** The scan of one iteration: returns |a| when no row is eligible,
      otherwise the eligible row with the smallest burst, the first one on
      ties (the comparison is strict). */
  method SelectShortestJob(a: array<Proc>, sysTime: int) returns (curr: int)
    ensures 0 <= curr <= a.Length
    ensures curr == a.Length <==> forall i :: 0 <= i < a.Length ==> !Eligible(a[..], i, sysTime)
    ensures curr < a.Length ==> Eligible(a[..], curr, sysTime)
    ensures curr < a.Length ==> forall i :: 0 <= i < a.Length && Eligible(a[..], i, sysTime) ==>
      a[curr].cpuBurstTime <= a[i].cpuBurstTime && (i < curr ==> a[curr].cpuBurstTime < a[i].cpuBurstTime)
  {
    curr := a.Length;
    var min := 0;
    for i := 0 to a.Length
      invariant curr == a.Length || (0 <= curr < i && Eligible(a[..], curr, sysTime) && min == a[curr].cpuBurstTime)
      invariant curr == a.Length <==> forall k :: 0 <= k < i ==> !Eligible(a[..], k, sysTime)
      invariant curr < a.Length ==> forall k :: 0 <= k < i && Eligible(a[..], k, sysTime) ==>
        min <= a[k].cpuBurstTime && (k < curr ==> min < a[k].cpuBurstTime)
    {
      if a[i].arrivalTime <= sysTime && !a[i].executed && (curr == a.Length || a[i].cpuBurstTime < min) {
        min := a[i].cpuBurstTime;
        curr := i;
      }
    }
  }

  /** What holds between iterations of the dispatch loop: only finish and
      executed have changed, executed rows have finished by the clock, the
      timeline holds exactly one whole-burst slice per executed row, and
      every dispatch so far was a shortest-job-first choice. */
  ghost predicate SjfState(s0: seq<Proc>, s: seq<Proc>, tr: seq<Slice>, clock: int)
  {
    |s| == |s0| &&
    (forall i :: 0 <= i < |s| ==>
      s[i] == s0[i].(finishTime := s[i].finishTime, executed := s[i].executed)) &&
    (forall i :: 0 <= i < |s| && s[i].executed ==> s[i].finishTime <= clock) &&
    Fits(s0, tr) && Ordered(tr) && EndsBy(tr, clock) &&
    (forall j :: 0 <= j < |tr| ==> tr[j].len == s0[tr[j].proc].cpuBurstTime) &&
    (forall x :: 0 <= x < |s| ==>
      Served(tr, x) == (if s[x].executed then s0[x].cpuBurstTime else 0) &&
      (s[x].executed ==> Completion(tr, x) == s[x].finishTime)) &&
    ShortestFirst(s)
  }

  /** Row curr run to completion from `clock`. */
  function RunToCompletion(s: seq<Proc>, curr: nat, clock: int): seq<Proc>
    requires curr < |s|
  {
    s[curr := s[curr].(finishTime := clock + s[curr].cpuBurstTime, executed := true)]
  }

  /** Running the selected row to completion from `clock` (giving s', tr'
      and clock') keeps the loop state and executes one more row. */
  lemma {:induction false} DispatchStep(s0: seq<Proc>, s: seq<Proc>, tr: seq<Slice>, clock: int, curr: nat,
                                        s': seq<Proc>, tr': seq<Slice>, clock': int)
    requires SjfState(s0, s, tr, clock) && PositiveBursts(s0)
    requires curr < |s| && Eligible(s, curr, clock)
    requires forall i :: 0 <= i < |s| && Eligible(s, i, clock) ==>
      s[curr].cpuBurstTime <= s[i].cpuBurstTime && (i < curr ==> s[curr].cpuBurstTime < s[i].cpuBurstTime)
    requires s' == RunToCompletion(s, curr, clock) && clock' == clock + s[curr].cpuBurstTime
    requires tr' == tr + [Slice(curr, clock, clock' - clock)]
    ensures SjfState(s0, s', tr', clock')
    ensures CountExecuted(s') == CountExecuted(s) + 1
  {
    var sl := Slice(curr, clock, clock' - clock);
    AppendOrdered(tr, sl);
    forall x | 0 <= x < |s|
      ensures Served(tr', x) == (if s'[x].executed then s0[x].cpuBurstTime else 0)
      ensures s'[x].executed ==> Completion(tr', x) == s'[x].finishTime
    {
      AppendSlice(tr, sl, x);
    }
    forall j, k | 0 <= j < |s'| && 0 <= k < |s'| && s'[j].executed &&
      s'[k].arrivalTime <= Start(s'[j]) && (!s'[k].executed || Start(s'[k]) > Start(s'[j]))
      ensures s'[j].cpuBurstTime <= s'[k].cpuBurstTime && (k < j ==> s'[j].cpuBurstTime < s'[k].cpuBurstTime)
    {
      if j == curr {
        assert Eligible(s, k, clock);
      } else {
        assert s[j].executed && Start(s[j]) < clock;
      }
    }
    CountExecutedMark(s, curr, s'[curr]);
  }

  lemma InitialState(s0: seq<Proc>, clock: int)
    requires NoneExecuted(s0)
    ensures SjfState(s0, s0, [], clock)
  {
  }

  /** An idle tick keeps the loop state, and happens only before the last
      arrival: some row is still unexecuted and has not arrived.  No row
      with work left has arrived by the next tick either, so the CPU did not
      idle while a row waited. */
  lemma {:induction false} IdleStep(s0: seq<Proc>, s: seq<Proc>, tr: seq<Slice>, clock: int, count: nat)
    requires SjfState(s0, s, tr, clock) && SortedByArrival(s0) && |s0| > 0
    requires count == CountExecuted(s) && count != |s|
    requires forall i :: 0 <= i < |s| ==> !Eligible(s, i, clock)
    ensures SjfState(s0, s, tr, clock + 1)
    ensures clock < s0[|s0| - 1].arrivalTime
    ensures Busy(s0, tr, clock + 1)
  {
    CountExecutedFull(s);
    var k :| 0 <= k < |s| && !s[k].executed;
    assert !Eligible(s, k, clock);
    assert s0[k].arrivalTime <= s0[|s0| - 1].arrivalTime;
    forall x | 0 <= x < |s0| && Served(tr, x) < s0[x].cpuBurstTime
      ensures s0[x].arrivalTime >= clock + 1
    {
      assert !Eligible(s, x, clock);
    }
  }

  /** Once every row is executed the loop state is a complete schedule. */
  lemma {:induction false} FinalState(s0: seq<Proc>, s: seq<Proc>, tr: seq<Slice>, clock: int, count: nat)
    requires SjfState(s0, s, tr, clock) && count == CountExecuted(s) && count == |s|
    ensures AllExecuted(s)
    ensures forall i :: 0 <= i < |s| ==> s[i] == s0[i].(finishTime := s[i].finishTime, executed := true)
    ensures ValidSchedule(s, tr)
    ensures forall j :: 0 <= j < |tr| ==> tr[j].len == s[tr[j].proc].cpuBurstTime
    ensures ShortestFirst(s)
  {
    CountExecutedFull(s);
    assert SameInputs(s0, s);
    FitsSameInputs(s0, s, tr);
  }

  /** The dispatch branch of the loop: the selected row finishes a whole
      burst after the clock, is marked executed, and the clock moves to its
      finish time. */
  method RunSelected(a: array<Proc>, curr: int, sysTime: int) returns (clock: int)
    requires 0 <= curr < a.Length
    modifies a
    ensures a[..] == RunToCompletion(old(a[..]), curr, sysTime)
    ensures clock == sysTime + old(a[curr].cpuBurstTime) == a[curr].finishTime
  {
    a[curr] := a[curr].(finishTime := sysTime + a[curr].cpuBurstTime);
    clock := sysTime + a[curr].cpuBurstTime;
    a[curr] := a[curr].(executed := true);
  }

  /** RunSelected together with what it does to the loop state: the run
      is appended to the timeline, starting at the clock, and one more row
      is executed. */
  method Dispatch(a: array<Proc>, curr: int, sysTime: int, ghost s0: seq<Proc>, ghost tr: seq<Slice>)
    returns (clock: int, ghost tr': seq<Slice>)
    requires SjfState(s0, a[..], tr, sysTime) && PositiveBursts(s0)
    requires 0 <= curr < a.Length && Eligible(a[..], curr, sysTime)
    requires forall i :: 0 <= i < a.Length && Eligible(a[..], i, sysTime) ==>
      a[curr].cpuBurstTime <= a[i].cpuBurstTime && (i < curr ==> a[curr].cpuBurstTime < a[i].cpuBurstTime)
    requires NoIdleWhileWaiting(s0, tr) && Busy(s0, tr, sysTime)
    modifies a
    ensures a[..] == RunToCompletion(old(a[..]), curr, sysTime)
    ensures tr' == tr + [Slice(curr, sysTime, clock - sysTime)] && tr'[..|tr|] == tr
    ensures SjfState(s0, a[..], tr', clock)
    ensures CountExecuted(a[..]) == old(CountExecuted(a[..])) + 1
    ensures NoIdleWhileWaiting(s0, tr') && Busy(s0, tr', clock)
  {
    ghost var s := a[..];
    clock := RunSelected(a, curr, sysTime);
    tr' := tr + [Slice(curr, sysTime, clock - sysTime)];
    DispatchStep(s0, s, tr, sysTime, curr, a[..], tr', clock);
    AppendBusy(s0, tr, Slice(curr, sysTime, clock - sysTime));
  }

  /** One iteration of the dispatch loop: either an idle tick before the
      last arrival, taken only when no row is eligible, or one more row run
      to completion in a slice that starts at the clock.  Either way the CPU
      has not idled while a row with work left had arrived. */
  method Step(a: array<Proc>, sysTime: int, count: nat, ghost s0: seq<Proc>, ghost tr: seq<Slice>)
    returns (clock: int, count': nat, ghost tr': seq<Slice>)
    requires SjfState(s0, a[..], tr, sysTime) && PositiveBursts(s0) && SortedByArrival(s0) && |s0| > 0
    requires count == CountExecuted(a[..]) && count != a.Length
    requires NoIdleWhileWaiting(s0, tr) && Busy(s0, tr, sysTime)
    modifies a
    ensures SjfState(s0, a[..], tr', clock)
    ensures count' == CountExecuted(a[..])
    ensures count' == count + 1 || (count' == count && clock == sysTime + 1 && clock <= s0[|s0| - 1].arrivalTime)
    ensures count' == count ==> tr' == tr && forall i :: 0 <= i < a.Length ==> !Eligible(old(a[..]), i, sysTime)
    ensures count' == count + 1 ==>
      |tr'| == |tr| + 1 && tr'[..|tr|] == tr && tr'[|tr|].start == sysTime && End(tr'[|tr|]) == clock
    ensures NoIdleWhileWaiting(s0, tr') && Busy(s0, tr', clock)
  {
    ghost var s := a[..];
    var curr := SelectShortestJob(a, sysTime);
    assert a[..] == s;
    if curr == a.Length {
      IdleStep(s0, a[..], tr, sysTime, count);
      clock, count', tr' := sysTime + 1, count, tr;
    } else {
      clock, tr' := Dispatch(a, curr, sysTime, s0, tr);
      count' := count + 1;
    }
  }

  /** getProcessFinishTime for SJF.  Every row ends executed; only finish and
      executed change; the ghost timeline is a valid schedule in which each
      row runs once for its whole burst, every dispatch is a
      shortest-job-first choice, and the CPU never idles while an arrived
      row waits. */
  method SjfFinishTimes(a: array<Proc>) returns (ghost tr: seq<Slice>)
    requires Runnable(a[..])
    modifies a
    ensures AllExecuted(a[..])
    ensures forall i :: 0 <= i < a.Length ==>
      a[i] == old(a[i]).(finishTime := a[i].finishTime, executed := true)
    ensures ValidSchedule(a[..], tr)
    ensures forall j :: 0 <= j < |tr| ==> tr[j].len == a[tr[j].proc].cpuBurstTime
    ensures ShortestFirst(a[..])
    ensures NoIdleWhileWaiting(a[..], tr)
  {
    ghost var s0 := a[..];
    ghost var lastArrival := a[a.Length - 1].arrivalTime;
    var sysTime := a[0].arrivalTime;
    var countOfExeProcess := 0;
    tr := [];
    CountExecutedNone(a[..]);
    InitialState(s0, sysTime);
    StartBusy(s0);
    while countOfExeProcess != a.Length
      invariant SjfState(s0, a[..], tr, sysTime)
      invariant countOfExeProcess == CountExecuted(a[..])
      invariant NoIdleWhileWaiting(s0, tr) && Busy(s0, tr, sysTime)
      decreases a.Length - countOfExeProcess, lastArrival - sysTime
    {
      sysTime, countOfExeProcess, tr := Step(a, sysTime, countOfExeProcess, s0, tr);
    }
    FinalState(s0, a[..], tr, sysTime, countOfExeProcess);
    assert SameInputs(s0, a[..]);
    NoIdleSameInputs(s0, a[..], tr);
  }
}
