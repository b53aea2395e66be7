/** Shortest Remaining Time First, preemptive (class
    ShortestRemainingTimeFirst).  When some unexecuted row has arrived, an
    iteration picks the incumbent, the arrived and unexecuted row with the
    least remaining time; it then looks for a later arrival that would beat
    it, and the incumbent runs either until that arrival or to completion.
    When nothing has arrived, the index of the last row run is advanced by
    one, the clock jumps to that row's arrival, and that row runs without a
    new choice (see IdleJumpSkipsShorterRow). */
module ShortestRemainingTimeFirst {
  import opened Processes
  import opened Timeline

  /** Row inc is the incumbent at `clock`: it has arrived, is unexecuted,
      and no arrived unexecuted row has less remaining time; an earlier row
      with the same remaining time would have been chosen instead. */
  predicate MinRemaining(s: seq<Proc>, rem: seq<int>, clock: int, inc: int)
    requires |s| == |rem|
  {
    0 <= inc < |s| && Eligible(s, inc, clock) &&
    forall i :: 0 <= i < |s| && Eligible(s, i, clock) ==>
      rem[inc] <= rem[i] && (i < inc ==> rem[inc] < rem[i])
  }

  /** Row i preempts incumbent curr at `clock`: i is another unexecuted
      row arriving after `clock` but no later than the incumbent's whole
      burst from `clock`, and its remaining time is below what the
      incumbent would have left when i arrives. */
  predicate Beats(s: seq<Proc>, rem: seq<int>, clock: int, curr: int, i: int)
    requires 0 <= curr < |s| == |rem| && 0 <= i < |s|
  {
    i != curr && s[i].arrivalTime <= clock + s[curr].cpuBurstTime && !s[i].executed &&
    s[i].arrivalTime > clock && rem[i] < rem[curr] - (s[i].arrivalTime - clock)
  }

  /** How long row curr runs in one iteration: nothing when it is already
      executed, up to the preempting arrival, or its whole remaining time. */
  function RunLength(s: seq<Proc>, rem: seq<int>, curr: int, preempt: bool, exeTime: int): int
    requires 0 <= curr < |s| == |rem|
  {
    if s[curr].executed then 0 else if preempt then exeTime else rem[curr]
  }

  /** The rows after the run of row curr from `clock`: it finishes and is
      marked executed when it ran to completion; otherwise nothing changes. */
  function AfterRun(s: seq<Proc>, rem: seq<int>, curr: int, preempt: bool, clock: int): seq<Proc>
    requires 0 <= curr < |s| == |rem|
  {
    if s[curr].executed || preempt then s
    else s[curr := s[curr].(finishTime := clock + rem[curr], executed := true)]
  }

  /** Lines 330-346: the scan for the incumbent.  When no row has arrived
      the previous incumbent is kept. */
  method SelectIncumbent(a: array<Proc>, rem: array<int>, sysTime: int, shortest: int)
    returns (incumbent: int, newP: bool)
    requires a.Length == rem.Length
    ensures newP <==> exists i :: 0 <= i < a.Length && Eligible(a[..], i, sysTime)
    ensures !newP ==> incumbent == shortest
    ensures newP ==> MinRemaining(a[..], rem[..], sysTime, incumbent)
  {
    incumbent := shortest;
    newP := false;
    for i := 0 to a.Length
      invariant newP <==> exists k :: 0 <= k < i && Eligible(a[..], k, sysTime)
      invariant !newP ==> incumbent == shortest
      invariant newP ==> (0 <= incumbent < i && Eligible(a[..], incumbent, sysTime) &&
        forall k :: 0 <= k < i && Eligible(a[..], k, sysTime) ==>
          rem[incumbent] <= rem[k] && (k < incumbent ==> rem[incumbent] < rem[k]))
    {
      assert Eligible(a[..], i, sysTime) <==> a[i].arrivalTime <= sysTime && !a[i].executed;
      if a[i].arrivalTime <= sysTime && !a[i].executed {
        if !newP {
          incumbent := i;
          newP := true;
        } else if rem[i] < rem[incumbent] {
          incumbent := i;
        }
      }
    }
  }

  /** Lines 354-389: the scan for a preempting arrival.  The window is the
      incumbent's whole burst, not its remaining time.  `fIn` is declared
      inside the loop body, so its `else if` can never run and every row
      that beats the incumbent overwrites the result: the preemption time
      is the gap to the LAST such row in table order.  The clamp of a
      negative gap cannot fire (the row arrives after the clock) and is not
      modelled; `next` is never read and is left out. */
  method ScanPreemption(a: array<Proc>, rem: array<int>, sysTime: int, shortest: int)
    returns (preempt: bool, finalExeTime: int)
    requires 0 <= shortest < a.Length == rem.Length
    ensures preempt <==> exists i :: 0 <= i < a.Length && Beats(a[..], rem[..], sysTime, shortest, i)
    ensures !preempt ==> finalExeTime == 0
    ensures preempt ==> exists i ::
      0 <= i < a.Length && Beats(a[..], rem[..], sysTime, shortest, i) &&
      finalExeTime == a[i].arrivalTime - sysTime &&
      forall j :: i < j < a.Length ==> !Beats(a[..], rem[..], sysTime, shortest, j)
  {
    var diff := sysTime + a[shortest].cpuBurstTime;
    preempt := false;
    finalExeTime := 0;
    ghost var last := 0;
    for i := 0 to a.Length
      invariant preempt <==> exists k :: 0 <= k < i && Beats(a[..], rem[..], sysTime, shortest, k)
      invariant !preempt ==> finalExeTime == 0
      invariant preempt ==> (0 <= last < i && Beats(a[..], rem[..], sysTime, shortest, last) &&
        finalExeTime == a[last].arrivalTime - sysTime &&
        forall j :: last < j < i ==> !Beats(a[..], rem[..], sysTime, shortest, j))
    {
      assert Beats(a[..], rem[..], sysTime, shortest, i) <==>
        i != shortest && a[i].arrivalTime <= sysTime + a[shortest].cpuBurstTime && !a[i].executed &&
        a[i].arrivalTime > sysTime && rem[i] < rem[shortest] - (a[i].arrivalTime - sysTime);
      if i != shortest && a[i].arrivalTime <= diff && !a[i].executed {
        if a[i].arrivalTime > sysTime {
          var exeTime := a[i].arrivalTime - sysTime;
          var updatedBurst := rem[shortest] - exeTime;
          if rem[i] < updatedBurst {
            preempt := true;
            finalExeTime := exeTime;
            last := i;
          }
        }
      }
    }
  }

  /** Lines 391-407: the run.  An executed incumbent (possible only after
      the idle jump) changes nothing.  Otherwise, without preemption the
      incumbent finishes at the clock plus its remaining time, its
      remaining time becomes 0 and the count of executed rows rises by one;
      with preemption the clock and its remaining time move by the same
      amount. */
  method Advance(a: array<Proc>, rem: array<int>, shortest: int, sysTime: int, count: int,
                 preempt: bool, finalExeTime: int)
    returns (clock: int, count': int)
    requires 0 <= shortest < a.Length == rem.Length
    modifies a, rem
    ensures clock == sysTime + RunLength(old(a[..]), old(rem[..]), shortest, preempt, finalExeTime)
    ensures rem[..] == old(rem[..])[shortest :=
      old(rem[..])[shortest] - RunLength(old(a[..]), old(rem[..]), shortest, preempt, finalExeTime)]
    ensures a[..] == AfterRun(old(a[..]), old(rem[..]), shortest, preempt, sysTime)
    ensures count' == if !old(a[shortest].executed) && !preempt then count + 1 else count
  {
    clock, count' := sysTime, count;
    if !a[shortest].executed {
      if !preempt {
        clock := clock + rem[shortest];
        a[shortest] := a[shortest].(finishTime := clock);
        a[shortest] := a[shortest].(executed := true);
        rem[shortest] := 0;
        count' := count' + 1;
      } else {
        clock := clock + finalExeTime;
        rem[shortest] := rem[shortest] - finalExeTime;
      }
    } else {
      assert rem[..] == old(rem[..])[shortest := old(rem[..])[shortest] - 0];
    }
  }

  /** The rows, remaining times and timeline between iterations: only
      finish and executed have changed and a row is executed exactly when
      nothing remains of it (RemainingRows); the slices account for the
      rest of every burst, run one at a time after their row's arrival and
      have ended by `high`, the furthest the clock has reached; executed
      rows finished at the end of their last slice and arrived by `high`. */
  ghost predicate SrtfTimeline(s0: seq<Proc>, s: seq<Proc>, rem: seq<int>, tr: seq<Slice>, high: int)
  {
    RemainingRows(s0, s, rem) && Accounts(s0, rem, tr) &&
    Fits(s0, tr) && Ordered(tr) && EndsBy(tr, high) &&
    FinishedAtLastSlice(s, tr, high)
  }

  /** Every unexecuted row up to `inc` has arrived by `clock`. */
  predicate Prefix(s: seq<Proc>, inc: int, clock: int)
  {
    forall x :: 0 <= x <= inc && x < |s| && !s[x].executed ==> s[x].arrivalTime <= clock
  }

  /** The clock and the last incumbent between iterations.  The clock is
      normally `high`; after an idle jump onto an executed row it may lie
      behind, and then every unexecuted row arrives after `high`. */
  predicate SrtfClock(s: seq<Proc>, clock: int, high: int, shortest: int)
  {
    clock <= high &&
    (clock < high ==> forall x :: 0 <= x < |s| && !s[x].executed ==> s[x].arrivalTime > high) &&
    0 <= shortest < |s| && Prefix(s, shortest, clock)
  }

  /** The incumbent inc at `clock`, just before the run: an unexecuted
      incumbent has arrived and the clock is past every slice, and when
      the clock jumped past `high` no unexecuted row arrived before it; an
      executed one (reached by the idle jump) lies no later than `high`,
      and every unexecuted row arrives after `high`. */
  predicate Poised(s: seq<Proc>, high: int, inc: int, clock: int)
  {
    0 <= inc < |s| && Prefix(s, inc, clock) &&
    (s[inc].executed ==>
      clock <= high && forall x :: 0 <= x < |s| && !s[x].executed ==> s[x].arrivalTime > high) &&
    (!s[inc].executed ==> s[inc].arrivalTime <= clock && high <= clock) &&
    (!s[inc].executed && high < clock ==>
      forall x :: 0 <= x < |s| && !s[x].executed ==> s[x].arrivalTime >= clock)
  }

  /** An incumbent chosen by the scan is poised to run: the clock is not
      behind, because some unexecuted row has arrived by it. */
  lemma Selected(s0: seq<Proc>, s: seq<Proc>, rem: seq<int>, tr: seq<Slice>, high: int,
                 clock: int, shortest: int, inc: int)
    requires SrtfTimeline(s0, s, rem, tr, high) && SrtfClock(s, clock, high, shortest)
    requires SortedByArrival(s0) && MinRemaining(s, rem, clock, inc)
    ensures Poised(s, high, inc, clock)
  {
    assert s[inc].arrivalTime <= clock;
    forall x | 0 <= x <= inc && !s[x].executed
      ensures s[x].arrivalTime <= clock
    {
      assert s0[x].arrivalTime <= s0[inc].arrivalTime;
    }
  }

  /** When nothing has arrived, some row is executed (so the idle branch is
      taken), every unexecuted row lies after the last incumbent and
      arrives after `high`, and the jump to the next row is poised. */
  lemma {:induction false} Idle(s0: seq<Proc>, s: seq<Proc>, rem: seq<int>, tr: seq<Slice>, high: int,
                                clock: int, shortest: int, count: nat)
    requires SrtfTimeline(s0, s, rem, tr, high) && SrtfClock(s, clock, high, shortest)
    requires SortedByArrival(s0) && count == CountExecuted(s) && count != |s|
    requires forall i :: 0 <= i < |s| ==> !Eligible(s, i, clock)
    ensures count != 0 && shortest + 1 < |s|
    ensures Poised(s, high, shortest + 1, s[shortest + 1].arrivalTime)
  {
    CountExecutedFull(s);
    var u :| 0 <= u < |s| && !s[u].executed;
    assert !Eligible(s, u, clock);
    if count == 0 {
      UnexecutedWhenNoneCounted(s, 0);
    }
    forall x | 0 <= x < |s| && !s[x].executed
      ensures x > shortest && s[x].arrivalTime > high
    {
      assert !Eligible(s, x, clock);
    }
    forall x | 0 <= x < |s| && !s[x].executed
      ensures s[x].arrivalTime >= s[shortest + 1].arrivalTime
    {
      assert s0[shortest + 1].arrivalTime <= s0[x].arrivalTime;
    }
  }

  /** With no executed row, the first row is unexecuted. */
  lemma {:induction false} UnexecutedWhenNoneCounted(s: seq<Proc>, i: nat)
    requires CountExecuted(s) == 0 && i < |s|
    ensures !s[i].executed
    decreases |s|
  {
    if i < |s| - 1 {
      UnexecutedWhenNoneCounted(s[..|s| - 1], i);
    }
  }

  /** Lines 327-353: the incumbent and the clock it runs from.  When some
      row has arrived the incumbent is the scan's choice and the clock
      stays; otherwise the index moves one past the last incumbent and the
      clock jumps to that row's arrival, which lies behind the clock when
      that row is already executed. */
  method Incumbent(a: array<Proc>, rem: array<int>, sysTime: int, shortest: int, count: nat,
                   ghost s0: seq<Proc>, ghost tr: seq<Slice>, ghost high: int)
    returns (inc: int, clock: int)
    requires a.Length == rem.Length && SortedByArrival(s0)
    requires SrtfTimeline(s0, a[..], rem[..], tr, high) && SrtfClock(a[..], sysTime, high, shortest)
    requires count == CountExecuted(a[..]) && count != a.Length
    ensures Poised(a[..], high, inc, clock)
    ensures (exists i :: 0 <= i < a.Length && Eligible(a[..], i, sysTime)) ==>
      clock == sysTime && MinRemaining(a[..], rem[..], sysTime, inc)
    ensures (forall i :: 0 <= i < a.Length ==> !Eligible(a[..], i, sysTime)) ==>
      inc == shortest + 1 && clock == a[inc].arrivalTime
    ensures a[..][inc].executed ==> inc > shortest
  {
    var newP;
    inc, newP := SelectIncumbent(a, rem, sysTime, shortest);
    clock := sysTime;
    if newP {
      Selected(s0, a[..], rem[..], tr, high, clock, shortest, inc);
    } else {
      Idle(s0, a[..], rem[..], tr, high, clock, shortest, count);
    }
    if !newP && count != 0 {
      inc := inc + 1;
      var del := a[inc].arrivalTime - clock;
      clock := clock + del;
    }
  }

  /** The idle jump does not choose again.  Rows (arrival 0, burst 1),
      (arrival 10, burst 8) and (arrival 10, burst 2), after the first has
      run from 0 to 1, are a state Incumbent accepts with nothing arrived at
      1, so it moves to row 1 at clock 10.  Row 1 is not the row of least
      remaining time among those arrived at 10 (row 2 is), and no row beats
      it, so row 1 then runs to completion from 10 to 18 while row 2 waits. */
  lemma IdleJumpSkipsShorterRow()
    ensures var s0 := [Proc(1, 0, 1, 0, 0, 0, false), Proc(2, 10, 8, 0, 0, 0, false),
                       Proc(3, 10, 2, 0, 0, 0, false)];
            var s := s0[0 := s0[0].(finishTime := 1, executed := true)];
            var rem := [0, 8, 2];
            SortedByArrival(s0) && CountExecuted(s) == 1 &&
            SrtfTimeline(s0, s, rem, [Slice(0, 0, 1)], 1) && SrtfClock(s, 1, 1, 0) &&
            (forall i :: 0 <= i < 3 ==> !Eligible(s, i, 1)) &&
            Eligible(s, 2, 10) && !MinRemaining(s, rem, 10, 1) &&
            (forall i :: 0 <= i < 3 ==> !Beats(s, rem, 10, 1, i))
  {
    var s0 := [Proc(1, 0, 1, 0, 0, 0, false), Proc(2, 10, 8, 0, 0, 0, false),
               Proc(3, 10, 2, 0, 0, 0, false)];
    var s := s0[0 := s0[0].(finishTime := 1, executed := true)];
    var tr := [Slice(0, 0, 1)];
    assert s[..2] == [s[0], s[1]] && [s[0], s[1]][..1] == [s[0]] && [s[0]][..0] == [];
    assert CountExecuted([s[0]]) == 1;
    assert CountExecuted([s[0], s[1]]) == 1;
    assert tr[..0] == [];
    assert Served(tr, 0) == 1 && Served(tr, 1) == 0 && Served(tr, 2) == 0;
    assert Completion(tr, 0) == 1;
  }

  /** The evidently intended choice after an idle stretch: when no row has
      arrived, the clock still jumps to the arrival of row `shortest + 1`,
      but the incumbent is then chosen again by the scan at the new clock.
      Whenever some row has arrived by the clock the incumbent runs from,
      it has the least remaining time among those rows. */
  method IncumbentRescanned(a: array<Proc>, rem: array<int>, sysTime: int, shortest: int, count: nat,
                            ghost s0: seq<Proc>, ghost tr: seq<Slice>, ghost high: int)
    returns (inc: int, clock: int)
    requires a.Length == rem.Length && SortedByArrival(s0)
    requires SrtfTimeline(s0, a[..], rem[..], tr, high) && SrtfClock(a[..], sysTime, high, shortest)
    requires count == CountExecuted(a[..]) && count != a.Length
    ensures 0 <= inc < a.Length
    ensures (exists i :: 0 <= i < a.Length && Eligible(a[..], i, clock)) ==>
      MinRemaining(a[..], rem[..], clock, inc)
    ensures !a[..][inc].executed ==> MinRemaining(a[..], rem[..], clock, inc)
    ensures clock == sysTime || (shortest + 1 < a.Length && clock == a[shortest + 1].arrivalTime)
  {
    var newP;
    inc, newP := SelectIncumbent(a, rem, sysTime, shortest);
    clock := sysTime;
    if !newP {
      Idle(s0, a[..], rem[..], tr, high, clock, shortest, count);
      clock := a[shortest + 1].arrivalTime;
      inc, newP := SelectIncumbent(a, rem, clock, shortest + 1);
    }
  }

  /** A row that beats the incumbent arrives strictly inside the
      incumbent's remaining time: a preemption moves the clock forward and
      leaves the incumbent with time still to run. */
  lemma PreemptionShortens(s0: seq<Proc>, s: seq<Proc>, rem: seq<int>, clock: int, inc: int, i: int)
    requires RemainingRows(s0, s, rem) && 0 <= inc < |s| && 0 <= i < |s| && Beats(s, rem, clock, inc, i)
    ensures 0 < s[i].arrivalTime - clock < rem[inc]
  {
    assert rem[i] > 0;
  }

  /** s', rem', tr', high', clock' and count' are the state after one run
      of incumbent inc from `clock`, as Advance leaves it; the timeline gains
      a slice for the run unless the incumbent was already executed. */
  ghost predicate IsRun(s: seq<Proc>, rem: seq<int>, tr: seq<Slice>, high: int, clock: int, inc: int,
                        preempt: bool, exeTime: int, count: int,
                        s': seq<Proc>, rem': seq<int>, tr': seq<Slice>, high': int, clock': int, count': int)
  {
    0 <= inc < |s| == |rem| &&
    s' == AfterRun(s, rem, inc, preempt, clock) &&
    rem' == rem[inc := rem[inc] - RunLength(s, rem, inc, preempt, exeTime)] &&
    clock' == clock + RunLength(s, rem, inc, preempt, exeTime) &&
    count' == (if !s[inc].executed && !preempt then count + 1 else count) &&
    tr' == (if s[inc].executed then tr else tr + [Slice(inc, clock, clock' - clock)]) &&
    high' == (if s[inc].executed then high else clock')
  }

  lemma FinishedLater(s: seq<Proc>, tr: seq<Slice>, high: int, clock: int)
    requires FinishedAtLastSlice(s, tr, high) && high <= clock
    ensures FinishedAtLastSlice(s, tr, clock)
  {
  }

  lemma RunKeepsSlices(s0: seq<Proc>, tr: seq<Slice>, high: int, clock: int, inc: nat, len: int,
                       tr': seq<Slice>, clock': int, high': int)
    requires Fits(s0, tr) && Ordered(tr) && EndsBy(tr, high) && high <= clock
    requires inc < |s0| && s0[inc].arrivalTime <= clock && len > 0
    requires clock' == clock + len && tr' == tr + [Slice(inc, clock, clock' - clock)] && high' == clock'
    ensures Fits(s0, tr') && Ordered(tr') && EndsBy(tr', high')
  {
    AppendOrdered(tr, Slice(inc, clock, clock' - clock));
  }

  /** The preemption the scan reports moves the clock forward by less than
      the incumbent's remaining time. */
  lemma PreemptionBounds(s0: seq<Proc>, s: seq<Proc>, rem: seq<int>, clock: int, inc: int,
                         preempt: bool, exeTime: int)
    requires RemainingRows(s0, s, rem) && 0 <= inc < |s|
    requires preempt ==> exists i :: 0 <= i < |s| && Beats(s, rem, clock, inc, i) && exeTime == s[i].arrivalTime - clock
    ensures preempt ==> 0 < exeTime < rem[inc]
  {
    if preempt {
      var i :| 0 <= i < |s| && Beats(s, rem, clock, inc, i) && exeTime == s[i].arrivalTime - clock;
      PreemptionShortens(s0, s, rem, clock, inc, i);
    }
  }

  /** The run of an unexecuted incumbent is a Round-Robin turn whose
      quantum is the run's length. */
  lemma RunIsTurn(s: seq<Proc>, rem: seq<int>, tr: seq<Slice>, high: int,
                  clock: int, inc: int, preempt: bool, exeTime: int, count: int,
                  s': seq<Proc>, rem': seq<int>, tr': seq<Slice>, high': int, clock': int, count': int)
    requires 0 <= inc < |s| == |rem| && !s[inc].executed && rem[inc] > 0
    requires preempt ==> 0 < exeTime < rem[inc]
    requires IsRun(s, rem, tr, high, clock, inc, preempt, exeTime, count, s', rem', tr', high', clock', count')
    ensures RunLength(s, rem, inc, preempt, exeTime) > 0 && high' == clock'
    ensures IsTurn(s, rem, tr, clock, RunLength(s, rem, inc, preempt, exeTime), inc, s', rem', tr', clock')
  {
  }

  /** A run executes one more row exactly when it was not preempted. */
  lemma RunCount(s: seq<Proc>, rem: seq<int>, tr: seq<Slice>, high: int,
                 clock: int, inc: int, preempt: bool, exeTime: int, count: int,
                 s': seq<Proc>, rem': seq<int>, tr': seq<Slice>, high': int, clock': int, count': int)
    requires 0 <= inc < |s| && !s[inc].executed && count == CountExecuted(s)
    requires IsRun(s, rem, tr, high, clock, inc, preempt, exeTime, count, s', rem', tr', high', clock', count')
    ensures count' == CountExecuted(s')
  {
    if !preempt {
      CountExecutedMark(s, inc, s[inc].(finishTime := clock + rem[inc], executed := true));
    }
  }

  /** After a run the clock is the furthest point reached, and every
      unexecuted row up to the incumbent has still arrived. */
  lemma RunClock(s: seq<Proc>, rem: seq<int>, high: int, clock: int, inc: int, preempt: bool,
                 s': seq<Proc>, clock': int, high': int)
    requires Poised(s, high, inc, clock) && |rem| == |s| && !s[inc].executed
    requires s' == AfterRun(s, rem, inc, preempt, clock) && clock <= clock' && high' == clock'
    ensures SrtfClock(s', clock', high', inc)
  {
  }

  /** A run of len > 0 ticks by an arrived, unexecuted incumbent, starting
      after every slice so far, keeps the timeline invariant, and takes its
      length off the total remaining time. */
  lemma {:induction false} RunTimeline(s0: seq<Proc>, s: seq<Proc>, rem: seq<int>, tr: seq<Slice>, high: int,
                                       clock: int, len: int, inc: nat,
                                       s': seq<Proc>, rem': seq<int>, tr': seq<Slice>, high': int, clock': int)
    requires SrtfTimeline(s0, s, rem, tr, high) && high <= clock && len > 0
    requires inc < |s| && !s[inc].executed && s[inc].arrivalTime <= clock
    requires IsTurn(s, rem, tr, clock, len, inc, s', rem', tr', clock') && high' == clock'
    ensures SrtfTimeline(s0, s', rem', tr', high')
    ensures 0 <= Sum(rem') < Sum(rem)
  {
    TurnKeepsRows(s0, s, rem, tr, clock, len, inc, s', rem', tr', clock');
    TurnKeepsAccounts(s0, s, rem, tr, clock, len, inc, s', rem', tr', clock');
    FinishedLater(s, tr, high, clock);
    TurnKeepsFinished(s, rem, tr, clock, len, inc, s', rem', tr', clock');
    FinishedLater(s', tr', clock', high');
    RunKeepsSlices(s0, tr, high, clock, inc, clock' - clock, tr', clock', high');
    TurnShortens(rem, rem', inc, clock' - clock);
    SumNonNegative(rem');
  }

  /** One iteration's state change keeps the loop state; the total
      remaining time falls unless the incumbent was already executed. */
  lemma {:induction false} StepKeepsState(s0: seq<Proc>, s: seq<Proc>, rem: seq<int>, tr: seq<Slice>, high: int,
                                          clock: int, inc: int, preempt: bool, exeTime: int, count: int,
                                          s': seq<Proc>, rem': seq<int>, tr': seq<Slice>, high': int, clock': int,
                                          count': int)
    requires SrtfTimeline(s0, s, rem, tr, high) && Poised(s, high, inc, clock)
    requires count == CountExecuted(s)
    requires preempt ==> exists i :: 0 <= i < |s| && Beats(s, rem, clock, inc, i) && exeTime == s[i].arrivalTime - clock
    requires IsRun(s, rem, tr, high, clock, inc, preempt, exeTime, count, s', rem', tr', high', clock', count')
    ensures SrtfTimeline(s0, s', rem', tr', high') && SrtfClock(s', clock', high', inc)
    ensures count' == CountExecuted(s') && 0 <= Sum(rem')
    ensures Sum(rem') < Sum(rem) || (Sum(rem') == Sum(rem) && s[inc].executed)
  {
    if s[inc].executed {
      SkipKeepsState(s0, s, rem, tr, high, clock, inc, preempt, exeTime, count, s', rem', tr', high', clock', count');
    } else {
      RunKeepsState(s0, s, rem, tr, high, clock, inc, preempt, exeTime, count, s', rem', tr', high', clock', count');
    }
  }

  /** The step of an executed incumbent changes nothing but the clock. */
  lemma {:induction false} SkipKeepsState(s0: seq<Proc>, s: seq<Proc>, rem: seq<int>, tr: seq<Slice>, high: int,
                                          clock: int, inc: int, preempt: bool, exeTime: int, count: int,
                                          s': seq<Proc>, rem': seq<int>, tr': seq<Slice>, high': int, clock': int,
                                          count': int)
    requires SrtfTimeline(s0, s, rem, tr, high) && Poised(s, high, inc, clock) && s[inc].executed
    requires count == CountExecuted(s)
    requires IsRun(s, rem, tr, high, clock, inc, preempt, exeTime, count, s', rem', tr', high', clock', count')
    ensures SrtfTimeline(s0, s', rem', tr', high') && SrtfClock(s', clock', high', inc)
    ensures count' == CountExecuted(s') && 0 <= Sum(rem') == Sum(rem)
  {
    assert s' == s && rem' == rem;
    SumNonNegative(rem);
  }

  /** The step of an unexecuted incumbent: its run keeps the loop state
      and shortens the total remaining time. */
  lemma {:induction false} RunKeepsState(s0: seq<Proc>, s: seq<Proc>, rem: seq<int>, tr: seq<Slice>, high: int,
                                         clock: int, inc: int, preempt: bool, exeTime: int, count: int,
                                         s': seq<Proc>, rem': seq<int>, tr': seq<Slice>, high': int, clock': int,
                                         count': int)
    requires SrtfTimeline(s0, s, rem, tr, high) && Poised(s, high, inc, clock) && !s[inc].executed
    requires count == CountExecuted(s)
    requires preempt ==> exists i :: 0 <= i < |s| && Beats(s, rem, clock, inc, i) && exeTime == s[i].arrivalTime - clock
    requires IsRun(s, rem, tr, high, clock, inc, preempt, exeTime, count, s', rem', tr', high', clock', count')
    ensures SrtfTimeline(s0, s', rem', tr', high') && SrtfClock(s', clock', high', inc)
    ensures count' == CountExecuted(s') && 0 <= Sum(rem') < Sum(rem)
  {
    assert rem[inc] > 0;
    PreemptionBounds(s0, s, rem, clock, inc, preempt, exeTime);
    RunIsTurn(s, rem, tr, high, clock, inc, preempt, exeTime, count, s', rem', tr', high', clock', count');
    RunCount(s, rem, tr, high, clock, inc, preempt, exeTime, count, s', rem', tr', high', clock', count');
    RunTimeline(s0, s, rem, tr, high, clock, RunLength(s, rem, inc, preempt, exeTime), inc,
                s', rem', tr', high', clock');
    RunClock(s, rem, high, clock, inc, preempt, s', clock', high');
  }

  /** An unexecuted incumbent starts at a busy instant: either where the
      last slice ended, or after the idle jump, before which no row with
      work left had arrived. */
  lemma BusyAt(s0: seq<Proc>, s: seq<Proc>, rem: seq<int>, tr: seq<Slice>, high: int, inc: int, clock: int)
    requires SrtfTimeline(s0, s, rem, tr, high) && Busy(s0, tr, high) && Poised(s, high, inc, clock)
    ensures !s[inc].executed ==> Busy(s0, tr, clock)
  {
    if !s[inc].executed && high < clock {
      forall k | 0 <= k < |s0| && Unserved(s0, tr, k)
        ensures s0[k].arrivalTime >= clock
      {
        assert rem[k] > 0;
        assert !s[k].executed;
      }
    }
  }

  /** One iteration keeps the CPU from idling while work waits: a run
      starts at a busy instant and ends at one, and a skipped executed
      incumbent adds nothing. */
  lemma StepNoIdle(s0: seq<Proc>, tr: seq<Slice>, high: int, executed: bool,
                   inc: int, clock: int, tr': seq<Slice>, high': int, clock': int)
    requires 0 <= inc && NoIdleWhileWaiting(s0, tr) && Busy(s0, tr, high) && (!executed ==> Busy(s0, tr, clock))
    requires tr' == (if executed then tr else tr + [Slice(inc, clock, clock' - clock)])
    requires high' == (if executed then high else clock')
    ensures NoIdleWhileWaiting(s0, tr') && Busy(s0, tr', high')
  {
    if !executed {
      AppendBusy(s0, tr, Slice(inc, clock, clock' - clock));
    }
  }

  /** What one iteration decides on table s with remaining times rem at
      sysTime after incumbent `shortest`: when some row is eligible, the
      incumbent inc is the one of least remaining time and it starts at
      once; otherwise inc is the next row and it starts at its arrival.
      It is preempted exactly when some row beats it from `start`, and
      then it runs until the arrival of the last such row. */
  ghost predicate Decided(s: seq<Proc>, rem: seq<int>, sysTime: int, shortest: int,
                          inc: int, start: int, preempt: bool, exeTime: int)
  {
    |s| == |rem| && 0 <= inc < |s| &&
    ((exists i :: 0 <= i < |s| && Eligible(s, i, sysTime)) ==>
      start == sysTime && MinRemaining(s, rem, sysTime, inc)) &&
    ((forall i :: 0 <= i < |s| ==> !Eligible(s, i, sysTime)) ==>
      inc == shortest + 1 && start == s[inc].arrivalTime) &&
    (preempt <==> exists i :: 0 <= i < |s| && Beats(s, rem, start, inc, i)) &&
    (!preempt ==> exeTime == 0) &&
    (preempt ==> exists i ::
      0 <= i < |s| && Beats(s, rem, start, inc, i) && exeTime == s[i].arrivalTime - start &&
      forall j :: i < j < |s| ==> !Beats(s, rem, start, inc, j))
  }

  /** Lines 327-357: the incumbent, its start and the preemption scan, as
      `Decided` states them; the incumbent is poised to run from `start`. */
  method Decide(a: array<Proc>, rem: array<int>, sysTime: int, shortest: int, count: nat,
                ghost s0: seq<Proc>, ghost tr: seq<Slice>, ghost high: int)
    returns (inc: int, start: int, preempt: bool, exeTime: int)
    requires a.Length == rem.Length && SortedByArrival(s0)
    requires SrtfTimeline(s0, a[..], rem[..], tr, high) && SrtfClock(a[..], sysTime, high, shortest)
    requires count == CountExecuted(a[..]) && count != a.Length
    ensures Decided(a[..], rem[..], sysTime, shortest, inc, start, preempt, exeTime)
    ensures Poised(a[..], high, inc, start) && (a[..][inc].executed ==> inc > shortest)
  {
    inc, start := Incumbent(a, rem, sysTime, shortest, count, s0, tr, high);
    preempt, exeTime := ScanPreemption(a, rem, start, inc);
  }

  /** One iteration of the main loop (lines 327-409).  It picks the
      incumbent and its start as `Decided` says, runs it for `RunLength`,
      and the rows, remaining times and timeline become what that run
      makes of them.  The loop state is kept, and either the total
      remaining time falls or it stays and the incumbent index moves
      forward. */
  method Iterate(a: array<Proc>, rem: array<int>, sysTime: int, shortest: int, count: nat,
                 ghost s0: seq<Proc>, ghost tr: seq<Slice>, ghost high: int)
    returns (clock: int, shortest': int, count': nat, ghost tr': seq<Slice>, ghost high': int,
             ghost start: int, ghost preempt: bool, ghost exeTime: int)
    requires a.Length == rem.Length && SortedByArrival(s0)
    requires SrtfTimeline(s0, a[..], rem[..], tr, high) && SrtfClock(a[..], sysTime, high, shortest)
    requires count == CountExecuted(a[..]) && count != a.Length
    requires NoIdleWhileWaiting(s0, tr) && Busy(s0, tr, high)
    modifies a, rem
    ensures Decided(old(a[..]), old(rem[..]), sysTime, shortest, shortest', start, preempt, exeTime)
    ensures clock == start + RunLength(old(a[..]), old(rem[..]), shortest', preempt, exeTime)
    ensures a[..] == AfterRun(old(a[..]), old(rem[..]), shortest', preempt, start)
    ensures rem[..] == old(rem[..])[shortest' :=
      old(rem[..])[shortest'] - RunLength(old(a[..]), old(rem[..]), shortest', preempt, exeTime)]
    ensures tr' == if old(a[shortest']).executed then tr else tr + [Slice(shortest', start, clock - start)]
    ensures SrtfTimeline(s0, a[..], rem[..], tr', high') && SrtfClock(a[..], clock, high', shortest')
    ensures count' == CountExecuted(a[..]) && 0 <= Sum(rem[..])
    ensures Sum(rem[..]) < Sum(old(rem[..])) || (Sum(rem[..]) == Sum(old(rem[..])) && shortest' > shortest)
    ensures NoIdleWhileWaiting(s0, tr') && Busy(s0, tr', high')
  {
    ghost var s, r := a[..], rem[..];
    var inc, begin, preempted, finalExeTime := Decide(a, rem, sysTime, shortest, count, s0, tr, high);
    start, preempt, exeTime := begin, preempted, finalExeTime;
    assert a[..] == s && rem[..] == r;
    var c;
    clock, c := Advance(a, rem, inc, begin, count, preempted, finalExeTime);
    count' := c;
    shortest' := inc;
    tr' := if s[inc].executed then tr else tr + [Slice(inc, start, clock - start)];
    high' := if s[inc].executed then high else clock;
    StepKeepsState(s0, s, r, tr, high, start, inc, preempt, finalExeTime, count,
                   a[..], rem[..], tr', high', clock, c);
    BusyAt(s0, s, r, tr, high, inc, start);
    StepNoIdle(s0, tr, high, s[inc].executed, inc, start, tr', high', clock);
  }

  lemma StartState(s0: seq<Proc>, s: seq<Proc>, rem: seq<int>, clock: int)
    requires Runnable(s0) && s == s0 && clock == s0[0].arrivalTime
    requires |rem| == |s0| && forall i :: 0 <= i < |s0| ==> rem[i] == s0[i].cpuBurstTime
    ensures SrtfTimeline(s0, s, rem, [], clock) && SrtfClock(s, clock, clock, 0)
    ensures CountExecuted(s) == 0 && 0 <= Sum(rem)
  {
    CountExecutedNone(s);
    SumNonNegative(rem);
  }

  /** Once every row is executed the loop state is a complete schedule. */
  lemma {:induction false} FinalState(s0: seq<Proc>, s: seq<Proc>, rem: seq<int>, tr: seq<Slice>, high: int, count: nat)
    requires SrtfTimeline(s0, s, rem, tr, high) && count == CountExecuted(s) && count == |s|
    requires NoIdleWhileWaiting(s0, tr)
    ensures AllExecuted(s)
    ensures forall i :: 0 <= i < |s| ==> s[i] == s0[i].(finishTime := s[i].finishTime, executed := true)
    ensures ValidSchedule(s, tr) && NoIdleWhileWaiting(s, tr)
  {
    CountExecutedFull(s);
    assert SameInputs(s0, s);
    FitsSameInputs(s0, s, tr);
    NoIdleSameInputs(s0, s, tr);
  }

  /** getProcessFinishTime for SRTF.  Every row ends executed and only
      finish and executed change; the ghost timeline is a valid schedule
      and the CPU never idles while an arrived row has work left. */
  method SrtfFinishTimes(a: array<Proc>) returns (ghost tr: seq<Slice>)
    requires Runnable(a[..])
    modifies a
    ensures AllExecuted(a[..])
    ensures forall i :: 0 <= i < a.Length ==>
      a[i] == old(a[i]).(finishTime := a[i].finishTime, executed := true)
    ensures ValidSchedule(a[..], tr) && NoIdleWhileWaiting(a[..], tr)
  {
    ghost var s0 := a[..];
    var rem := InitRemaining(a);
    var countOfExeProcesses := 0;
    var sysTime := a[0].arrivalTime;
    var shortest := 0;
    ghost var high := sysTime;
    tr := [];
    StartState(s0, a[..], rem[..], sysTime);
    StartBusy(s0);
    while countOfExeProcesses != a.Length
      invariant a.Length == rem.Length
      invariant SrtfTimeline(s0, a[..], rem[..], tr, high) && SrtfClock(a[..], sysTime, high, shortest)
      invariant countOfExeProcesses == CountExecuted(a[..]) && 0 <= Sum(rem[..])
      invariant NoIdleWhileWaiting(s0, tr) && Busy(s0, tr, high)
      decreases Sum(rem[..]), a.Length - shortest
    {
      ghost var start, preempt, exeTime;
      sysTime, shortest, countOfExeProcesses, tr, high, start, preempt, exeTime :=
        Iterate(a, rem, sysTime, shortest, countOfExeProcesses, s0, tr, high);
    }
    FinalState(s0, a[..], rem[..], tr, high, countOfExeProcesses);
  }
}
