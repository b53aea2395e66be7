/** First Come First Serve (class FirstComeFirstServe): one pass over the
    arrival-sorted table with a running clock. */
module FirstComeFirstServe {
  import opened Processes
  import opened Timeline

  function Max(x: int, y: int): int
  {
    if x < y then y else x
  }

  /** The clock after the first `k` rows have run in table order, starting
      from `start`: each row starts at the later of the clock and its
      arrival and runs for its whole burst. */
  function FcfsClock(s: seq<Proc>, start: int, k: nat): int
    requires k <= |s|
  {
    if k == 0 then start
    else Max(FcfsClock(s, start, k - 1), s[k - 1].arrivalTime) + s[k - 1].cpuBurstTime
  }

  function SumBursts(s: seq<Proc>): int
  {
    if s == [] then 0 else SumBursts(s[..|s| - 1]) + s[|s| - 1].cpuBurstTime
  }

  /** getProcessFinishTime: row i finishes at FcfsClock(.., i + 1); nothing
      else in the table changes.  The ghost result is the CPU timeline. */
  method FcfsFinishTimes(a: array<Proc>) returns (ghost tr: seq<Slice>)
    requires a.Length > 0 && PositiveBursts(a[..]) && SortedByArrival(a[..])
    modifies a
    ensures forall i :: 0 <= i < a.Length ==>
      a[i] == old(a[i]).(finishTime := FcfsClock(old(a[..]), old(a[0].arrivalTime), i + 1))
    ensures ValidSchedule(a[..], tr)
  {
    ghost var s0 := a[..];
    var sysTime := a[0].arrivalTime;
    tr := [];
    for i := 0 to a.Length
      invariant sysTime == FcfsClock(s0, s0[0].arrivalTime, i)
      invariant forall k :: 0 <= k < i ==>
        a[k] == s0[k].(finishTime := FcfsClock(s0, s0[0].arrivalTime, k + 1))
      invariant forall k :: i <= k < a.Length ==> a[k] == s0[k]
      invariant TimelineUpTo(s0, tr, i)
    {
      ghost var startAt := Max(sysTime, a[i].arrivalTime);
      if a[i].arrivalTime <= sysTime {
        sysTime := sysTime + a[i].cpuBurstTime;
      } else {
        sysTime := a[i].arrivalTime;
        sysTime := sysTime + a[i].cpuBurstTime;
      }
      a[i] := a[i].(finishTime := sysTime);
      TimelineStep(s0, tr, i);
      tr := tr + [Slice(i, startAt, s0[i].cpuBurstTime)];
    }
    assert TimelineUpTo(s0, tr, a.Length);
    assert SameInputs(s0, a[..]);
    FitsSameInputs(s0, a[..], tr);
  }

  /** The timeline after the first i rows of FcfsFinishTimes: one slice per
      row so far, each ending at that row's FcfsClock finish. */
  ghost predicate TimelineUpTo(s: seq<Proc>, tr: seq<Slice>, i: nat)
    requires 0 < |s| && i <= |s|
  {
    Fits(s, tr) && Ordered(tr) && EndsBy(tr, FcfsClock(s, s[0].arrivalTime, i)) &&
    forall x :: 0 <= x < |s| ==>
      Served(tr, x) == (if x < i then s[x].cpuBurstTime else 0) &&
      (x < i ==> Completion(tr, x) == FcfsClock(s, s[0].arrivalTime, x + 1))
  }

  lemma {:induction false} TimelineStep(s: seq<Proc>, tr: seq<Slice>, i: nat)
    requires 0 < |s| && i < |s| && PositiveBursts(s) && TimelineUpTo(s, tr, i)
    ensures TimelineUpTo(s, tr + [Slice(i, Max(FcfsClock(s, s[0].arrivalTime, i), s[i].arrivalTime), s[i].cpuBurstTime)], i + 1)
  {
    var t := FcfsClock(s, s[0].arrivalTime, i);
    var sl := Slice(i, Max(t, s[i].arrivalTime), s[i].cpuBurstTime);
    var tr' := tr + [sl];
    AppendOrdered(tr, sl);
    assert EndsBy(tr', FcfsClock(s, s[0].arrivalTime, i + 1));
    assert Fits(s, tr');
    forall x | 0 <= x < |s|
      ensures Served(tr', x) == (if x < i + 1 then s[x].cpuBurstTime else 0)
      ensures x < i + 1 ==> Completion(tr', x) == FcfsClock(s, s[0].arrivalTime, x + 1)
    {
      AppendSlice(tr, sl, x);
    }
  }

  /** Finish times never decrease along the table. */
  lemma {:induction false} FcfsClockMonotone(s: seq<Proc>, start: int, i: nat, j: nat)
    requires PositiveBursts(s) && i <= j <= |s|
    ensures FcfsClock(s, start, i) <= FcfsClock(s, start, j)
    decreases j
  {
    if i < j {
      FcfsClockMonotone(s, start, i, j - 1);
    }
  }

  /** Row k finishes at or after its arrival plus its burst, and at least a
      whole burst after the previous row finished. */
  lemma FcfsFinishBounds(s: seq<Proc>, start: int, k: nat)
    requires k < |s|
    ensures FcfsClock(s, start, k + 1) >= s[k].arrivalTime + s[k].cpuBurstTime
    ensures FcfsClock(s, start, k + 1) >= FcfsClock(s, start, k) + s[k].cpuBurstTime
  {
  }

  /** Without idle gaps (every row has arrived by the time the previous one
      finishes) the CPU is never idle: the clock after k rows is the start
      plus the sum of their bursts. */
  lemma {:induction false} FcfsNoIdle(s: seq<Proc>, start: int, k: nat)
    requires k <= |s|
    requires forall i :: 0 <= i < k ==> s[i].arrivalTime <= FcfsClock(s, start, i)
    ensures FcfsClock(s, start, k) == start + SumBursts(s[..k])
  {
    if k > 0 {
      FcfsNoIdle(s, start, k - 1);
      assert s[..k][..k - 1] == s[..k - 1];
    }
  }

  /** With an idle gap before row k (it arrives after the clock), row k
      starts exactly at its own arrival and so waits for nothing. */
  lemma FcfsIdleStart(s: seq<Proc>, start: int, k: nat)
    requires k < |s| && s[k].arrivalTime > FcfsClock(s, start, k)
    ensures FcfsClock(s, start, k + 1) == s[k].arrivalTime + s[k].cpuBurstTime
  {
  }
}
