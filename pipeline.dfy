/** The reset -> sort -> schedule sequence that scheduleProcesses runs for a
    chosen policy, and the table a scheduler's `schedule` method hands to
    saveOutputFile: the engine's finish times, then turnaround, then
    waiting time, then the table re-sorted by pId with one output row per
    process. */
module Pipeline {
  import opened Processes
  import opened Timeline
  import opened Sorting
  import opened Metrics
  import FirstComeFirstServe
  import ShortJobFirst
  import RoundRobin
  import ShortestRemainingTimeFirst
  import opened OutputLine

  /** Every row's turnaround is its finish minus its arrival and covers its
      burst, and its wait is the turnaround minus the burst, so not
      negative. */
  predicate Consistent(s: seq<Proc>)
  {
    forall i :: 0 <= i < |s| ==>
      s[i].turnArndTime == s[i].finishTime - s[i].arrivalTime >= s[i].cpuBurstTime &&
      s[i].waitTime == s[i].turnArndTime - s[i].cpuBurstTime >= 0
  }

  /** Consistency is a property of each row, so any permutation keeps it. */
  lemma ConsistentPermuted(s: seq<Proc>, t: seq<Proc>)
    requires Consistent(s) && multiset(s) == multiset(t)
    ensures Consistent(t)
  {
    forall i | 0 <= i < |t|
      ensures t[i].turnArndTime == t[i].finishTime - t[i].arrivalTime >= t[i].cpuBurstTime
      ensures t[i].waitTime == t[i].turnArndTime - t[i].cpuBurstTime >= 0
    {
      assert t[i] in multiset(s);
    }
  }

  /** A reset table sorted by arrival is ready for every engine: it is a
      permutation of the cleared input, so its bursts stay positive and no
      row is executed, and clearing it again changes nothing. */
  lemma {:induction false} SortedResetRunnable(s0: seq<Proc>, s: seq<Proc>)
    requires |s0| > 0 && PositiveBursts(s0)
    requires multiset(s) == multiset(ClearedAll(s0)) && SortedByArrival(s)
    ensures Runnable(s) && ClearedAll(s) == s
  {
    var c := ClearedAll(s0);
    assert |s| == |c| by {
      calc {
        |s|;
        |multiset(s)|;
        |multiset(c)|;
        |c|;
      }
    }
    forall i | 0 <= i < |s|
      ensures s[i].cpuBurstTime > 0 && s[i] == Cleared(s[i])
    {
      assert s[i] in multiset(c);
      var j :| 0 <= j < |c| && c[j] == s[i];
      assert s[i] == Cleared(s0[j]);
    }
  }

  /** The rows an engine and the two metric passes leave behind: only the
      derived fields differ from the rows they started from. */
  lemma {:induction false} SameClearedRows(s: seq<Proc>, f: seq<Proc>)
    requires |s| == |f| && ClearedAll(s) == s
    requires forall i :: 0 <= i < |s| ==> f[i] == s[i].(finishTime := f[i].finishTime, executed := f[i].executed,
      turnArndTime := f[i].turnArndTime, waitTime := f[i].waitTime)
    ensures ClearedAll(f) == s
  {
    forall i | 0 <= i < |s|
      ensures ClearedAll(f)[i] == s[i]
    {
      assert Cleared(f[i]) == Cleared(s[i]);
      assert ClearedAll(s)[i] == Cleared(s[i]);
    }
  }

  /** What the engine of policy p promises about the table s it leaves
      behind, started from the table s0, with the timeline tr: a valid
      schedule, and
      - FCFS: every finish time is the first-come-first-served clock after
        that row;
      - SJF: every row runs its whole burst in one slice, the shortest
        arrived job goes first, and the CPU never idles while work waits;
      - RR: every turn lasts at most one quantum, a shorter turn is its
        row's last, and the CPU never idles while work waits;
      - SRTF: the CPU never idles while work waits.
      Every engine but FCFS also marks every row executed. */
  ghost predicate EnginePromise(p: Policy, q: int, s0: seq<Proc>, s: seq<Proc>, tr: seq<Slice>)
    requires |s0| > 0 && |s| == |s0|
  {
    ValidSchedule(s, tr) &&
    match p
    case FCFS =>
      forall i :: 0 <= i < |s| ==>
        s[i].finishTime == FirstComeFirstServe.FcfsClock(s0, s0[0].arrivalTime, i + 1)
    case SJF =>
      AllExecuted(s) && ShortJobFirst.ShortestFirst(s) && NoIdleWhileWaiting(s, tr) &&
      forall j :: 0 <= j < |tr| ==> tr[j].len == s[tr[j].proc].cpuBurstTime
    case RR =>
      AllExecuted(s) && NoIdleWhileWaiting(s, tr) &&
      (forall j :: 0 <= j < |tr| ==> tr[j].len <= q) &&
      forall j :: 0 <= j < |tr| && tr[j].len != q ==> Completion(tr, tr[j].proc) == End(tr[j])
    case SRTF =>
      AllExecuted(s) && NoIdleWhileWaiting(s, tr)
  }

  /** The two metric passes keep every engine's promise: they change only
      turnaround and waiting time, which no part of it reads. */
  lemma PromiseKept(p: Policy, q: int, s0: seq<Proc>, e: seq<Proc>, f: seq<Proc>, tr: seq<Slice>)
    requires |s0| > 0 && |e| == |s0| == |f| && EnginePromise(p, q, s0, e, tr) && ValidSchedule(f, tr)
    requires forall i :: 0 <= i < |e| ==>
      f[i] == e[i].(turnArndTime := f[i].turnArndTime, waitTime := f[i].waitTime)
    ensures EnginePromise(p, q, s0, f, tr)
  {
    assert SameInputs(e, f);
    if p != FCFS {
      NoIdleSameInputs(e, f, tr);
    }
    if p == SJF {
      assert ShortJobFirst.ShortestFirst(f) by {
        assert forall i :: 0 <= i < |e| ==> ShortJobFirst.Start(f[i]) == ShortJobFirst.Start(e[i]);
      }
    }
  }

  /** The engine of one policy (its getProcessFinishTime) on a table that is
      ready to run: it keeps that engine's promise, and only finish times
      and executed flags change. */
  method FinishTimes(a: array<Proc>, p: Policy, q: int) returns (ghost tr: seq<Slice>)
    requires Runnable(a[..]) && (p == RR ==> q > 0)
    modifies a
    ensures EnginePromise(p, q, old(a[..]), a[..], tr)
    ensures forall i :: 0 <= i < a.Length ==>
      a[i] == old(a[i]).(finishTime := a[i].finishTime, executed := a[i].executed)
  {
    match p {
      case FCFS => tr := FirstComeFirstServe.FcfsFinishTimes(a);
      case SJF => tr := ShortJobFirst.SjfFinishTimes(a);
      case RR => tr := RoundRobin.RrFinishTimes(a, q);
      case SRTF => tr := ShortestRemainingTimeFirst.SrtfFinishTimes(a);
    }
  }

  /** resetProcessDetail, sortProcessByArrival, then the policy's
      getProcessFinishTime, getProcessTAT and getProcessWaitTime.  `ready`
      is the table the engine starts from: the input reset and reordered by
      arrival time.  The result is `ready` with its derived fields
      recomputed: the engine's promise holds of it, and every turnaround
      and waiting time is exact (none of the clamps fires). */
  method Run(a: array<Proc>, p: Policy, q: int) returns (ghost ready: seq<Proc>, ghost tr: seq<Slice>)
    requires a.Length > 0 && PositiveBursts(a[..]) && (p == RR ==> q > 0)
    modifies a
    ensures SortedByArrival(ready) && multiset(ready) == multiset(ClearedAll(old(a[..])))
    ensures ClearedAll(a[..]) == ready && SortedByArrival(a[..])
    ensures EnginePromise(p, q, ready, a[..], tr)
    ensures Consistent(a[..])
  {
    ghost var s0 := a[..];
    ResetProcessDetail(a);
    SortProcessByArrival(a);
    ready := a[..];
    SortedResetRunnable(s0, ready);
    tr := FinishTimes(a, p, q);
    ghost var e := a[..];
    ComputeMetrics(a, p, tr);
    PromiseKept(p, q, ready, e, a[..], tr);
    SameClearedRows(ready, a[..]);
  }

  /** getProcessTAT then getProcessWaitTime after a valid schedule: the
      turnaround and waiting times become exact and nothing else changes. */
  method ComputeMetrics(a: array<Proc>, p: Policy, ghost tr: seq<Slice>)
    requires ValidSchedule(a[..], tr) && PositiveBursts(a[..])
    modifies a
    ensures ValidSchedule(a[..], tr) && Consistent(a[..])
    ensures forall i :: 0 <= i < a.Length ==>
      a[i] == old(a[i]).(turnArndTime := a[i].turnArndTime, waitTime := a[i].waitTime)
  {
    ghost var e := a[..];
    FinishAfterWork(e, tr);
    GetProcessTAT(a, p);
    GetProcessWaitTime(a, p);
    forall i | 0 <= i < a.Length
      ensures a[i] == e[i].(turnArndTime := e[i].finishTime - e[i].arrivalTime,
                            waitTime := e[i].finishTime - e[i].arrivalTime - e[i].cpuBurstTime)
    {
      MetricsExact(p, e[i]);
    }
    FitsSameInputs(e, a[..], tr);
  }

  /** saveOutputFile, short of the file write: the table is re-sorted by
      pId in place and each process gives one output line, in that order,
      which reads back as its pId, finish time, waiting time and
      turnaround. */
  method SaveOutput(a: array<Proc>) returns (lines: seq<string>)
    modifies a
    ensures SortedByPid(a[..]) && multiset(a[..]) == multiset(old(a[..]))
    ensures |lines| == a.Length && forall i :: 0 <= i < a.Length ==> lines[i] == LineOf(a[i])
    ensures forall i :: 0 <= i < a.Length ==> ParseLine(lines[i]) == Some(RowOf(a[i]))
  {
    SortProcessByPID(a);
    lines := RenderLines(a);
  }

  /** Lines 510-520: the `process` buffer gets one line per row, in table
      order. */
  method RenderLines(a: array<Proc>) returns (lines: seq<string>)
    ensures |lines| == a.Length && forall i :: 0 <= i < a.Length ==> lines[i] == LineOf(a[i])
    ensures forall i :: 0 <= i < a.Length ==> ParseLine(lines[i]) == Some(RowOf(a[i]))
  {
    var process := new string[a.Length];
    for i := 0 to a.Length
      invariant forall k :: 0 <= k < i ==> process[k] == LineOf(a[k])
      modifies process
    {
      process[i] := LineOf(a[i]);
    }
    lines := process[..];
    forall i | 0 <= i < a.Length
      ensures lines[i] == LineOf(a[i]) && ParseLine(lines[i]) == Some(RowOf(a[i]))
    {
      LineRoundTrip(a[i]);
    }
  }

  /** One branch of scheduleProcesses followed by the scheduler's
      `schedule`: reset, sort by arrival, run the policy, compute the
      metrics and save.  The output lines come in ascending pId, one per
      input process, and read back as its pId, finish time and exact
      waiting and turnaround times; `ran`
      is the table as the scheduler left it, in arrival order: the reset
      and sorted input `ready` with the engine's promise holding of it. */
  method Schedule(a: array<Proc>, p: Policy, q: int)
    returns (lines: seq<string>, ghost ready: seq<Proc>, ghost ran: seq<Proc>, ghost tr: seq<Slice>)
    requires a.Length > 0 && PositiveBursts(a[..]) && (p == RR ==> q > 0)
    modifies a
    ensures |lines| == a.Length && forall i :: 0 <= i < a.Length ==> lines[i] == LineOf(a[i])
    ensures forall i :: 0 <= i < a.Length ==> ParseLine(lines[i]) == Some(RowOf(a[i]))
    ensures SortedByPid(a[..])
    ensures multiset(ClearedAll(a[..])) == multiset(ClearedAll(old(a[..])))
    ensures Consistent(a[..])
    ensures SortedByArrival(ready) && multiset(ready) == multiset(ClearedAll(old(a[..])))
    ensures multiset(ran) == multiset(a[..]) && SortedByArrival(ran) && ClearedAll(ran) == ready
    ensures EnginePromise(p, q, ready, ran, tr)
  {
    ready, tr := Run(a, p, q);
    ran := a[..];
    lines := SaveOutput(a);
    ConsistentPermuted(ran, a[..]);
    ClearedAllPermuted(ran, a[..]);
  }

  /** Dropping row j of a table drops one copy of it from the multiset. */
  lemma RemoveOne(t: seq<Proc>, j: nat)
    requires j < |t|
    ensures multiset(t[..j] + t[j + 1..]) == multiset(t) - multiset{t[j]}
  {
    assert t == t[..j] + [t[j]] + t[j + 1..];
  }

  /** Clearing a table row by row splits around any row. */
  lemma ClearedSplit(t: seq<Proc>, j: nat)
    requires j < |t|
    ensures ClearedAll(t) == ClearedAll(t[..j]) + [Cleared(t[j])] + ClearedAll(t[j + 1..])
    ensures ClearedAll(t[..j] + t[j + 1..]) == ClearedAll(t[..j]) + ClearedAll(t[j + 1..])
  {
  }

  /** Clearing commutes with reordering: two permutations of each other
      stay permutations once cleared. */
  lemma {:induction false} ClearedAllPermuted(s: seq<Proc>, t: seq<Proc>)
    requires multiset(s) == multiset(t)
    ensures multiset(ClearedAll(s)) == multiset(ClearedAll(t))
    decreases |s|
  {
    if s != [] {
      var n := |s| - 1;
      var x := s[n];
      assert x in multiset(t);
      var j :| 0 <= j < |t| && t[j] == x;
      var t' := t[..j] + t[j + 1..];
      RemoveOne(s, n);
      RemoveOne(t, j);
      assert s[..n] + s[n + 1..] == s[..n];
      ClearedAllPermuted(s[..n], t');
      ClearedSplit(s, n);
      ClearedSplit(t, j);
      assert ClearedAll(s) == ClearedAll(s[..n]) + [Cleared(x)];
    }
  }
}
