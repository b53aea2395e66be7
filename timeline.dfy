/** The CPU timeline an engine produces while it sets finish times: a
    sequence of slices, each one stretch of CPU time given to one row of the
    process table.  The engines build it as a ghost record of what they do;
    `ValidSchedule` is the property every policy shares. */
module Timeline {
  import opened Processes

  /** `len` ticks of CPU time given to row `proc`, starting at `start`. */
  datatype Slice = Slice(proc: nat, start: int, len: int)

  function End(sl: Slice): int
  {
    sl.start + sl.len
  }

  /** Total CPU time the slices give to row `x`. */
  function Served(tr: seq<Slice>, x: nat): int
  {
    if tr == [] then 0
    else Served(tr[..|tr| - 1], x) + (if tr[|tr| - 1].proc == x then tr[|tr| - 1].len else 0)
  }

  /** The end of the last slice given to row `x` (0 when there is none). */
  function Completion(tr: seq<Slice>, x: nat): int
  {
    if tr == [] then 0
    else if tr[|tr| - 1].proc == x then End(tr[|tr| - 1])
    else Completion(tr[..|tr| - 1], x)
  }

  /** One process at a time: every slice ends before any later slice starts. */
  ghost predicate Ordered(tr: seq<Slice>)
  {
    forall j, k :: 0 <= j < k < |tr| ==> End(tr[j]) <= tr[k].start
  }

  /** Every slice has ended by time `t`. */
  ghost predicate EndsBy(tr: seq<Slice>, t: int)
  {
    forall j :: 0 <= j < |tr| ==> End(tr[j]) <= t
  }

  /** Every slice is non-empty, names a row of `s`, and starts no earlier
      than that row's arrival. */
  ghost predicate Fits(s: seq<Proc>, tr: seq<Slice>)
  {
    forall j :: 0 <= j < |tr| ==>
      tr[j].proc < |s| && tr[j].len > 0 && s[tr[j].proc].arrivalTime <= tr[j].start
  }

  /** The slices so far plus the remaining times account for every burst. */
  ghost predicate Accounts(s: seq<Proc>, rem: seq<int>, tr: seq<Slice>)
  {
    |rem| == |s| &&
    forall x :: 0 <= x < |s| ==> Served(tr, x) + rem[x] == s[x].cpuBurstTime
  }

  /** A complete schedule for the table: the slices run one at a time, start
      after the arrival of their row, give each row exactly its burst, and
      each row's finish time is the end of its last slice. */
  ghost predicate ValidSchedule(s: seq<Proc>, tr: seq<Slice>)
  {
    Fits(s, tr) && Ordered(tr) &&
    forall x :: 0 <= x < |s| ==>
      Served(tr, x) == s[x].cpuBurstTime && s[x].finishTime == Completion(tr, x)
  }

  lemma AppendSlice(tr: seq<Slice>, sl: Slice, x: nat)
    ensures Served(tr + [sl], x) == Served(tr, x) + (if sl.proc == x then sl.len else 0)
    ensures Completion(tr + [sl], x) == if sl.proc == x then End(sl) else Completion(tr, x)
  {
    assert (tr + [sl])[..|tr|] == tr;
  }

  /** Appending a slice that starts after everything so far keeps the
      timeline ordered. */
  lemma AppendOrdered(tr: seq<Slice>, sl: Slice)
    requires Ordered(tr) && EndsBy(tr, sl.start)
    ensures Ordered(tr + [sl])
  {
  }

  lemma {:induction false} ServedNonNegative(s: seq<Proc>, tr: seq<Slice>, x: nat)
    requires Fits(s, tr)
    ensures Served(tr, x) >= 0
  {
    if tr != [] {
      ServedNonNegative(s, tr[..|tr| - 1], x);
    }
  }

  /** A row that has been served has a last slice, and its completion is the
      end of that slice. */
  lemma {:induction false} LastSliceOf(s: seq<Proc>, tr: seq<Slice>, x: nat) returns (j: nat)
    requires Fits(s, tr) && Served(tr, x) > 0
    ensures j < |tr| && tr[j].proc == x && Completion(tr, x) == End(tr[j])
  {
    var n := |tr| - 1;
    if tr[n].proc == x {
      j := n;
    } else {
      j := LastSliceOf(s, tr[..n], x);
    }
  }

  /** A served row completes no earlier than its arrival plus the time it
      was served. */
  lemma {:induction false} CompletionBound(s: seq<Proc>, tr: seq<Slice>, x: nat)
    requires Fits(s, tr) && Ordered(tr) && x < |s| && Served(tr, x) > 0
    ensures Completion(tr, x) >= s[x].arrivalTime + Served(tr, x)
  {
    var n := |tr| - 1;
    var pre := tr[..n];
    ServedNonNegative(s, pre, x);
    if tr[n].proc == x {
      if Served(pre, x) > 0 {
        CompletionBound(s, pre, x);
        var j := LastSliceOf(s, pre, x);
        assert End(tr[j]) <= tr[n].start;
      }
    } else {
      CompletionBound(s, pre, x);
    }
  }

  /** In a valid schedule no row finishes before it has had its whole burst
      after its arrival, so turnaround >= burst and wait >= 0. */
  lemma FinishAfterWork(s: seq<Proc>, tr: seq<Slice>)
    requires ValidSchedule(s, tr) && PositiveBursts(s)
    ensures forall x :: 0 <= x < |s| ==>
      s[x].finishTime >= s[x].arrivalTime + s[x].cpuBurstTime
  {
    forall x | 0 <= x < |s|
      ensures s[x].finishTime >= s[x].arrivalTime + s[x].cpuBurstTime
    {
      CompletionBound(s, tr, x);
    }
  }

  /** Fits depends on the arrival times only. */
  lemma FitsSameInputs(s: seq<Proc>, t: seq<Proc>, tr: seq<Slice>)
    requires Fits(s, tr) && SameInputs(s, t)
    ensures Fits(t, tr)
  {
  }

  /** At time `clock`, after the slices `tr`, the CPU has not been left idle
      while work waited: either `clock` is where the last slice ended, or
      every row with part of its burst still to run arrives at `clock` or
      later. */
  ghost predicate Busy(s: seq<Proc>, tr: seq<Slice>, clock: int)
  {
    (tr != [] && clock == End(tr[|tr| - 1])) ||
    forall k {:trigger Unserved(s, tr, k)} :: 0 <= k < |s| && Unserved(s, tr, k) ==> s[k].arrivalTime >= clock
  }

  /** Row k still has part of its burst to run after the slices `tr`. */
  ghost predicate Unserved(s: seq<Proc>, tr: seq<Slice>, k: int)
    requires 0 <= k < |s|
  {
    Served(tr, k) < s[k].cpuBurstTime
  }

  /** The CPU never idles while an arrived row has work left: every slice
      starts at a busy instant for the slices before it (see
      NoIdleEverySlice), that is, where the previous one ended, or else no
      row with work left had arrived before it starts.  In particular the
      first slice starts at the earliest arrival. */
  ghost predicate NoIdleWhileWaiting(s: seq<Proc>, tr: seq<Slice>)
  {
    tr == [] ||
    (NoIdleWhileWaiting(s, tr[..|tr| - 1]) && Busy(s, tr[..|tr| - 1], tr[|tr| - 1].start))
  }

  /** The timeline never idles while work waits exactly when every slice
      starts at a busy instant for the slices before it. */
  lemma {:induction false} NoIdleEverySlice(s: seq<Proc>, tr: seq<Slice>)
    ensures NoIdleWhileWaiting(s, tr) <==> forall j :: 0 <= j < |tr| ==> Busy(s, tr[..j], tr[j].start)
  {
    if tr != [] {
      var n := |tr| - 1;
      NoIdleEverySlice(s, tr[..n]);
      assert forall j :: 0 <= j < n ==> tr[..n][..j] == tr[..j] && tr[..n][j] == tr[j];
    }
  }

  /** Before any slice, the first arrival of a table sorted by arrival is a
      busy instant: no row has arrived earlier. */
  lemma StartBusy(s: seq<Proc>)
    requires |s| > 0 && SortedByArrival(s)
    ensures Busy(s, [], s[0].arrivalTime) && NoIdleWhileWaiting(s, [])
  {
  }

  /** A slice that starts at a busy instant keeps the timeline free of idle
      waiting, and its end is again a busy instant. */
  lemma AppendBusy(s: seq<Proc>, tr: seq<Slice>, sl: Slice)
    requires NoIdleWhileWaiting(s, tr) && Busy(s, tr, sl.start)
    ensures NoIdleWhileWaiting(s, tr + [sl]) && Busy(s, tr + [sl], End(sl))
  {
    assert (tr + [sl])[..|tr|] == tr;
  }

  /** Whether the CPU idled while work waited depends on the input fields
      only. */
  lemma {:induction false} NoIdleSameInputs(s: seq<Proc>, t: seq<Proc>, tr: seq<Slice>)
    requires NoIdleWhileWaiting(s, tr) && SameInputs(s, t)
    ensures NoIdleWhileWaiting(t, tr)
  {
    if tr != [] {
      var n := |tr| - 1;
      var p := tr[..n];
      NoIdleSameInputs(s, t, p);
      if !(p != [] && tr[n].start == End(p[n - 1])) {
        forall k | 0 <= k < |t| && Unserved(t, p, k)
          ensures t[k].arrivalTime >= tr[n].start
        {
          assert Unserved(s, p, k);
        }
      }
    }
  }

  /** A schedule that gives row 1 (burst 3) the CPU only at time 2 and row 0
      (burst 5) only at time 5, though both arrive at 0, is ordered and
      gives each row its burst, yet idles while both wait. */
  lemma IdleScheduleRejected()
    ensures var s := [Proc(1, 0, 5, 10, 0, 0, true), Proc(2, 0, 3, 5, 0, 0, true)];
            var tr := [Slice(1, 2, 3), Slice(0, 5, 5)];
            ValidSchedule(s, tr) && !NoIdleWhileWaiting(s, tr)
  {
    var s := [Proc(1, 0, 5, 10, 0, 0, true), Proc(2, 0, 3, 5, 0, 0, true)];
    var tr := [Slice(1, 2, 3), Slice(0, 5, 5)];
    assert tr[..1] == [Slice(1, 2, 3)] && tr[..1][..0] == [];
    assert !Busy(s, [], tr[0].start) by {
      assert Unserved(s, [], 0);
    }
    assert Served(tr, 0) == 5 && Served(tr, 1) == 3;
  }

  // Remaining times: the bookkeeping shared by the two preemptive engines
  // (Round Robin and Shortest Remaining Time First), where a row runs in
  // several slices and `remainingTime` holds what is left of its burst.

  function Sum(s: seq<int>): int
  {
    if s == [] then 0 else Sum(s[..|s| - 1]) + s[|s| - 1]
  }

  lemma {:induction false} SumUpdate(s: seq<int>, i: nat, v: int)
    requires i < |s|
    ensures Sum(s[i := v]) == Sum(s) - s[i] + v
    decreases |s|
  {
    var n := |s| - 1;
    assert s[i := v][..n] == if i < n then s[..n][i := v] else s[..n];
    if i < n {
      SumUpdate(s[..n], i, v);
    }
  }

  /** Only finish and executed have changed, and a row is executed exactly
      when nothing of its burst remains. */
  ghost predicate RemainingRows(s0: seq<Proc>, s: seq<Proc>, rem: seq<int>)
  {
    |s| == |s0| &&
    (forall i :: 0 <= i < |s| ==>
      s[i] == s0[i].(finishTime := s[i].finishTime, executed := s[i].executed)) &&
    |rem| == |s| &&
    (forall x :: 0 <= x < |s| ==> rem[x] >= 0 && (s[x].executed <==> rem[x] == 0))
  }

  /** An executed row finished at the end of its last slice, and arrived no
      later than `clock`. */
  ghost predicate FinishedAtLastSlice(s: seq<Proc>, tr: seq<Slice>, clock: int)
  {
    forall x :: 0 <= x < |s| && s[x].executed ==>
      Completion(tr, x) == s[x].finishTime && s[x].arrivalTime <= clock
  }

  /** The length of the next turn of row curr. */
  function TurnLength(rem: seq<int>, q: int, curr: nat): int
    requires curr < |rem|
  {
    if rem[curr] > q then q else rem[curr]
  }

  /** The rows after a turn of row curr starting at `clock`: a row whose
      remaining time fits in the turn is marked executed and finishes at
      its end; otherwise nothing changes. */
  function AfterTurn(s: seq<Proc>, rem: seq<int>, q: int, curr: nat, clock: int): seq<Proc>
    requires curr < |s| == |rem|
  {
    if rem[curr] > q then s
    else s[curr := s[curr].(executed := true, finishTime := clock + rem[curr])]
  }

  /** s', rem', tr' and clock' are the rows, remaining times, timeline and
      clock after a turn of row curr that starts at `clock`. */
  ghost predicate IsTurn(s: seq<Proc>, rem: seq<int>, tr: seq<Slice>, clock: int, q: int, curr: nat,
                         s': seq<Proc>, rem': seq<int>, tr': seq<Slice>, clock': int)
  {
    curr < |s| == |rem| &&
    s' == AfterTurn(s, rem, q, curr, clock) &&
    rem' == rem[curr := rem[curr] - TurnLength(rem, q, curr)] &&
    clock' == clock + TurnLength(rem, q, curr) &&
    tr' == tr + [Slice(curr, clock, clock' - clock)]
  }

  lemma TurnKeepsRows(s0: seq<Proc>, s: seq<Proc>, rem: seq<int>, tr: seq<Slice>, clock: int, q: int, curr: nat,
                      s': seq<Proc>, rem': seq<int>, tr': seq<Slice>, clock': int)
    requires RemainingRows(s0, s, rem) && q > 0 && curr < |s| && !s[curr].executed
    requires IsTurn(s, rem, tr, clock, q, curr, s', rem', tr', clock')
    ensures clock' > clock
    ensures RemainingRows(s0, s', rem')
  {
  }

  lemma {:induction false} TurnKeepsAccounts(s0: seq<Proc>, s: seq<Proc>, rem: seq<int>, tr: seq<Slice>, clock: int,
                                             q: int, curr: nat, s': seq<Proc>, rem': seq<int>, tr': seq<Slice>, clock': int)
    requires Accounts(s0, rem, tr)
    requires IsTurn(s, rem, tr, clock, q, curr, s', rem', tr', clock')
    ensures Accounts(s0, rem', tr')
    ensures forall x :: 0 <= x < |rem| ==>
      Completion(tr', x) == if x == curr then clock' else Completion(tr, x)
  {
    var sl := Slice(curr, clock, clock' - clock);
    forall x | 0 <= x < |rem|
      ensures Served(tr + [sl], x) + rem'[x] == s0[x].cpuBurstTime
      ensures Completion(tr + [sl], x) == if x == curr then clock' else Completion(tr, x)
    {
      AppendSlice(tr, sl, x);
    }
  }

  lemma TurnKeepsFinished(s: seq<Proc>, rem: seq<int>, tr: seq<Slice>, clock: int, q: int, curr: nat,
                          s': seq<Proc>, rem': seq<int>, tr': seq<Slice>, clock': int)
    requires FinishedAtLastSlice(s, tr, clock) && curr < |s| && s[curr].arrivalTime <= clock && !s[curr].executed
    requires IsTurn(s, rem, tr, clock, q, curr, s', rem', tr', clock')
    requires forall x :: 0 <= x < |rem| ==>
      Completion(tr', x) == if x == curr then clock' else Completion(tr, x)
    requires clock' > clock
    ensures FinishedAtLastSlice(s', tr', clock')
  {
    forall x | 0 <= x < |s'| && s'[x].executed
      ensures Completion(tr', x) == s'[x].finishTime && s'[x].arrivalTime <= clock'
    {
      if x != curr {
        assert s'[x] == s[x];
      }
    }
  }

  lemma {:induction false} SumNonNegative(s: seq<int>)
    requires forall i :: 0 <= i < |s| ==> s[i] >= 0
    ensures Sum(s) >= 0
    decreases |s|
  {
    if s != [] {
      SumNonNegative(s[..|s| - 1]);
    }
  }

  /** A turn takes its length off the total remaining time. */
  lemma TurnShortens(r: seq<int>, r': seq<int>, curr: nat, len: int)
    requires curr < |r| && r' == r[curr := r[curr] - len]
    ensures Sum(r') == Sum(r) - len
  {
    SumUpdate(r, curr, r[curr] - len);
  }

  /** The remaining-time array of the preemptive engines starts as the
      bursts. */
  method InitRemaining(a: array<Proc>) returns (rem: array<int>)
    ensures fresh(rem) && rem.Length == a.Length
    ensures forall i :: 0 <= i < a.Length ==> rem[i] == a[i].cpuBurstTime
  {
    rem := new int[a.Length];
    for i := 0 to a.Length
      invariant forall k :: 0 <= k < i ==> rem[k] == a[k].cpuBurstTime
    {
      rem[i] := a[i].cpuBurstTime;
    }
  }
}
