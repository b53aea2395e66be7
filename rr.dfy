/** Round Robin (class RoundRobin).  Queued rows take turns of at most one
    quantum.  Each round moves the wait queue into the active queue and runs
    every row of the active queue once.  After each turn, rows that arrived
    during the turn join the wait queue, then the row that was cut off, then
    the rows that arrive exactly when the turn ends.  When both queues are
    empty the clock jumps to the arrival of the first unexecuted row. */
module RoundRobin {
  import opened Processes
  import opened Timeline

  /** Strictly ascending row indices (the order of an index scan). */
  predicate Increasing(r: seq<int>)
  {
    forall j, k :: 0 <= j < k < |r| ==> r[j] < r[k]
  }

  predicate Distinct(r: seq<int>)
  {
    forall j, k :: 0 <= j < k < |r| ==> r[j] != r[k]
  }

  /** Queue.remove(Object): drops the first occurrence of `v`. */
  function RemoveFirst(s: seq<int>, v: int): (r: seq<int>)
    ensures v !in s ==> r == s
  {
    if s == [] then []
    else
      assert s == [s[0]] + s[1..];
      if s[0] == v then s[1..] else [s[0]] + RemoveFirst(s[1..], v)
  }

  /** When `v` occurs, RemoveFirst drops exactly its first occurrence. */
  lemma {:induction false} RemoveFirstDropsFirst(s: seq<int>, v: int) returns (k: nat)
    requires v in s
    ensures k < |s| && s[k] == v && v !in s[..k] && RemoveFirst(s, v) == s[..k] + s[k + 1..]
  {
    assert s == [s[0]] + s[1..];
    if s[0] == v {
      k := 0;
    } else {
      var k' := RemoveFirstDropsFirst(s[1..], v);
      k := k' + 1;
      assert s[..k] == [s[0]] + s[1..][..k'];
      assert s[k + 1..] == s[1..][k' + 1..];
    }
  }

  /** The rows the queues must hold at time `clock`: the queue names valid,
      unexecuted rows that have arrived, each once, and every unexecuted row
      that has arrived is in it. */
  ghost predicate RrQueue(s: seq<Proc>, clock: int, queue: seq<int>)
  {
    (forall k :: 0 <= k < |queue| ==>
      0 <= queue[k] < |s| && !s[queue[k]].executed && s[queue[k]].arrivalTime <= clock) &&
    Distinct(queue) &&
    (forall x :: 0 <= x < |s| && !s[x].executed && s[x].arrivalTime <= clock ==> x in queue)
  }

  /** The slices run one at a time before `clock` and last at most one
      quantum; a slice shorter than a quantum is the one that completes its
      row. */
  ghost predicate RrSlices(s0: seq<Proc>, s: seq<Proc>, tr: seq<Slice>, clock: int, q: int)
    requires |s| == |s0|
  {
    Fits(s0, tr) && Ordered(tr) && EndsBy(tr, clock) &&
    (forall j :: 0 <= j < |tr| ==> tr[j].len <= q) &&
    (forall j :: 0 <= j < |tr| && tr[j].len != q ==>
      s[tr[j].proc].executed && Completion(tr, tr[j].proc) == End(tr[j]))
  }

  /** What the rows, the remaining times and the timeline satisfy between
      turns: the slices account for the rest of every burst. */
  ghost predicate RrTimeline(s0: seq<Proc>, s: seq<Proc>, rem: seq<int>, tr: seq<Slice>, clock: int, q: int)
  {
    RemainingRows(s0, s, rem) && Accounts(s0, rem, tr) && RrSlices(s0, s, tr, clock, q) && FinishedAtLastSlice(s, tr, clock)
  }

  /** Every executed row arrived no later than `clock`. */
  predicate ExecutedBy(s: seq<Proc>, clock: int)
  {
    forall x :: 0 <= x < |s| && s[x].executed ==> s[x].arrivalTime <= clock
  }

  /** `t` is `s` except possibly at row curr, whose arrival is the same. */
  predicate SameExcept(s: seq<Proc>, t: seq<Proc>, curr: int)
  {
    |t| == |s| && 0 <= curr < |s| && t[curr].arrivalTime == s[curr].arrivalTime &&
    forall x :: 0 <= x < |s| && x != curr ==> t[x] == s[x]
  }

  /** Lines 203-207 and 221-225: the arrived, unexecuted rows in index order. */
  method ArrivedPending(a: array<Proc>, clock: int) returns (r: seq<int>)
    ensures Increasing(r)
    ensures forall i :: i in r <==> 0 <= i < a.Length && a[i].arrivalTime <= clock && !a[i].executed
  {
    r := [];
    for i := 0 to a.Length
      invariant Increasing(r) && forall k :: 0 <= k < |r| ==> r[k] < i
      invariant forall k :: k in r <==> 0 <= k < i && a[k].arrivalTime <= clock && !a[k].executed
    {
      if a[i].arrivalTime <= clock && !a[i].executed {
        r := r + [i];
      }
    }
  }

  /** The index of the first unexecuted row, 0 when there is none. */
  method FirstUnexecuted(a: array<Proc>) returns (b: int)
    ensures 0 <= b && (b < a.Length || b == 0)
    ensures !AllExecuted(a[..]) ==>
      b < a.Length && !a[b].executed && forall i :: 0 <= i < b ==> a[i].executed
    ensures AllExecuted(a[..]) ==> b == 0
  {
    b := 0;
    for i := 0 to a.Length
      invariant forall k :: 0 <= k < i ==> a[k].executed
    {
      if !a[i].executed {
        b := i;
        return;
      }
    }
  }

  /** Lines 265-272: whether some row is still unexecuted. */
  method AnyUnexecuted(a: array<Proc>) returns (flag: bool)
    ensures flag <==> !AllExecuted(a[..])
  {
    flag := false;
    for i := 0 to a.Length
      invariant forall k :: 0 <= k < i ==> a[k].executed
    {
      if !a[i].executed {
        flag := true;
        return;
      }
    }
  }

  /** Lines 232-244: one turn of row curr.  With more than a quantum left the
      row runs for a quantum and stays pending; otherwise it runs to the end,
      is marked executed with the new clock as its finish time, and leaves
      the wait queue. */
  method RunTurn(a: array<Proc>, rem: array<int>, q: int, curr: int, sysTime: int, wait: seq<int>)
    returns (clock: int, pending: bool, wait': seq<int>)
    requires 0 <= curr < a.Length == rem.Length
    modifies a, rem
    ensures pending <==> old(rem[curr]) > q
    ensures clock == sysTime + TurnLength(old(rem[..]), q, curr)
    ensures rem[..] == old(rem[..])[curr := old(rem[..])[curr] - TurnLength(old(rem[..]), q, curr)]
    ensures a[..] == AfterTurn(old(a[..]), old(rem[..]), q, curr, sysTime)
    ensures wait' == if pending then wait else RemoveFirst(wait, curr)
    ensures SameExcept(old(a[..]), a[..], curr)
    ensures a[..][curr].executed == (old(a[..])[curr].executed || !pending)
  {
    pending := false;
    clock := sysTime;
    wait' := wait;
    if rem[curr] > q {
      rem[curr] := rem[curr] - q;
      clock := clock + q;
      pending := true;
    } else {
      clock := clock + rem[curr];
      rem[curr] := 0;
      a[curr] := a[curr].(executed := true);
      a[curr] := a[curr].(finishTime := clock);
      wait' := RemoveFirst(wait', curr);
    }
  }

  /** Lines 246-257: the scan after a turn that ends at `clock`.  Rows that
      arrived before `clock`, are unexecuted, are not curr and are in
      neither queue join the wait queue in index order; rows that arrive
      exactly at `clock` are collected in `temp`, in index order. */
  method ScanArrivals(a: array<Proc>, clock: int, curr: int, rest: seq<int>, wait: seq<int>)
    returns (wait': seq<int>, ghost late: seq<int>, temp: seq<int>)
    ensures wait' == wait + late
    ensures Increasing(late)
    ensures forall i :: i in late <==>
      0 <= i < a.Length && a[i].arrivalTime < clock && !a[i].executed &&
      i != curr && i !in wait && i !in rest
    ensures Increasing(temp)
    ensures forall i :: i in temp <==> 0 <= i < a.Length && a[i].arrivalTime == clock
  {
    wait' := wait;
    late := [];
    temp := [];
    for i := 0 to a.Length
      invariant wait' == wait + late
      invariant Increasing(late) && forall k :: 0 <= k < |late| ==> late[k] < i
      invariant forall k :: k in late <==>
        0 <= k < i && a[k].arrivalTime < clock && !a[k].executed &&
        k != curr && k !in wait && k !in rest
      invariant Increasing(temp) && forall k :: 0 <= k < |temp| ==> temp[k] < i
      invariant forall k :: k in temp <==> 0 <= k < i && a[k].arrivalTime == clock
    {
      if a[i].arrivalTime < clock && !a[i].executed && i != curr && i !in wait' && i !in rest {
        wait' := wait' + [i];
        late := late + [i];
      } else if a[i].arrivalTime == clock {
        temp := temp + [i];
      }
    }
  }

  lemma IncreasingDistinct(r: seq<int>)
    requires Increasing(r)
    ensures Distinct(r)
  {
  }

  /** In a queue without repetitions the head does not occur again. */
  lemma DistinctHead(x: seq<int>, y: seq<int>)
    requires |x| > 0 && Distinct(x + y)
    ensures x[0] !in x[1..] + y
    ensures x[0] !in y
  {
    assert x + y == [x[0]] + (x[1..] + y);
    forall k | 0 <= k < |x[1..] + y| ensures (x[1..] + y)[k] != x[0] {
      assert (x + y)[0] == x[0] && (x + y)[k + 1] == (x[1..] + y)[k];
    }
  }

  lemma DistinctTail(x: seq<int>)
    requires |x| > 0 && Distinct(x)
    ensures Distinct(x[1..])
  {
    forall j, k | 0 <= j < k < |x| - 1 ensures x[1..][j] != x[1..][k] {
      assert x[1..][j] == x[j + 1] && x[1..][k] == x[k + 1];
    }
  }

  lemma {:induction false} DistinctAppend(x: seq<int>, y: seq<int>)
    requires Distinct(x) && Distinct(y) && forall v :: v in x ==> v !in y
    ensures Distinct(x + y)
  {
    forall j, k | 0 <= j < k < |x + y| ensures (x + y)[j] != (x + y)[k] {
      if k >= |x| && j < |x| {
        assert (x + y)[j] in x && (x + y)[k] in y;
      }
    }
  }

  /** A freshly scanned queue satisfies the queue invariant. */
  lemma ScannedQueue(s: seq<Proc>, clock: int, r: seq<int>)
    requires Increasing(r)
    requires forall i :: i in r <==> 0 <= i < |s| && s[i].arrivalTime <= clock && !s[i].executed
    ensures RrQueue(s, clock, r)
  {
    forall k | 0 <= k < |r|
      ensures 0 <= r[k] < |s| && !s[r[k]].executed && s[r[k]].arrivalTime <= clock
    {
      assert r[k] in r;
    }
  }

  lemma {:induction false} TurnKeepsSlices(s0: seq<Proc>, s: seq<Proc>, rem: seq<int>, tr: seq<Slice>, clock: int,
                                           q: int, curr: nat, s': seq<Proc>, rem': seq<int>, tr': seq<Slice>, clock': int)
    requires RemainingRows(s0, s, rem) && RrSlices(s0, s, tr, clock, q) && q > 0
    requires curr < |s| && !s[curr].executed && s[curr].arrivalTime <= clock
    requires IsTurn(s, rem, tr, clock, q, curr, s', rem', tr', clock')
    requires forall x :: 0 <= x < |rem| ==>
      Completion(tr', x) == if x == curr then clock' else Completion(tr, x)
    ensures |s'| == |s0| && RrSlices(s0, s', tr', clock', q)
  {
    var sl := Slice(curr, clock, clock' - clock);
    AppendOrdered(tr, sl);
    assert Fits(s0, tr') by {
      assert s0[curr].arrivalTime == s[curr].arrivalTime;
    }
    forall j | 0 <= j < |tr'| && tr'[j].len != q
      ensures s'[tr'[j].proc].executed && Completion(tr', tr'[j].proc) == End(tr'[j])
    {
      if j < |tr| {
        assert tr'[j] == tr[j];
        assert tr[j].proc != curr;
      }
    }
  }

  /** A turn of an arrived, unexecuted row keeps the timeline invariant with
      the turn appended, takes its length off the total remaining time, and
      leaves every executed row arrived by the start of the turn. */
  lemma {:induction false} TurnKeepsTimeline(s0: seq<Proc>, s: seq<Proc>, rem: seq<int>, tr: seq<Slice>, clock: int,
                                             q: int, curr: nat, s': seq<Proc>, rem': seq<int>, tr': seq<Slice>, clock': int)
    requires RrTimeline(s0, s, rem, tr, clock, q) && q > 0
    requires curr < |s| && !s[curr].executed && s[curr].arrivalTime <= clock
    requires IsTurn(s, rem, tr, clock, q, curr, s', rem', tr', clock')
    ensures RrTimeline(s0, s', rem', tr', clock', q)
    ensures Sum(rem') < Sum(rem)
    ensures ExecutedBy(s', clock)
  {
    TurnKeepsRows(s0, s, rem, tr, clock, q, curr, s', rem', tr', clock');
    TurnKeepsAccounts(s0, s, rem, tr, clock, q, curr, s', rem', tr', clock');
    TurnKeepsSlices(s0, s, rem, tr, clock, q, curr, s', rem', tr', clock');
    TurnKeepsFinished(s, rem, tr, clock, q, curr, s', rem', tr', clock');
    TurnShortens(rem, rem', curr, clock' - clock);
    assert ExecutedBy(s, clock);
    ExecutedArrivedBefore(s, rem, q, curr, clock);
  }

  /** The rows queued behind curr stay valid, unexecuted and arrived by
      `clock` after its turn, none of them is curr, and none repeats. */
  lemma {:induction false} QueuedBefore(s: seq<Proc>, clock: int, curr: int, rest: seq<int>, wait: seq<int>,
                                        s': seq<Proc>)
    requires RrQueue(s, clock, [curr] + rest + wait) && SameExcept(s, s', curr)
    ensures 0 <= curr < |s| && s[curr].arrivalTime <= clock && Distinct(rest + wait)
    ensures forall v :: v in rest + wait ==> 0 <= v < |s| && v != curr && !s'[v].executed && s'[v].arrivalTime <= clock
  {
    var q0 := [curr] + rest + wait;
    assert q0 == [curr] + (rest + wait);
    DistinctHead([curr], rest + wait);
    DistinctTail(q0);
    assert q0[0] == curr;
    forall v | v in rest + wait ensures 0 <= v < |s| && v != curr && !s'[v].executed && s'[v].arrivalTime <= clock {
      var k :| 0 <= k < |rest + wait| && (rest + wait)[k] == v;
      assert q0[k + 1] == v;
    }
  }

  /** The queues after a turn satisfy the queue invariant at the new clock. */
  lemma {:induction false} TurnKeepsQueue(s: seq<Proc>, clock: int, curr: int, rest: seq<int>, wait: seq<int>,
                                          s': seq<Proc>, clock': int, late: seq<int>, pending: bool, temp: seq<int>)
    requires RrQueue(s, clock, [curr] + rest + wait)
    requires SameExcept(s, s', curr) && clock' > clock
    requires pending == !s'[curr].executed && ExecutedBy(s', clock)
    requires Increasing(late)
    requires forall i :: i in late <==>
      0 <= i < |s'| && s'[i].arrivalTime < clock' && !s'[i].executed &&
      i != curr && i !in wait && i !in rest
    requires Increasing(temp)
    requires forall i :: i in temp <==> 0 <= i < |s'| && s'[i].arrivalTime == clock'
    ensures RrQueue(s', clock', rest + (wait + late + (if pending then [curr] else []) + temp))
  {
    var p := if pending then [curr] else [];
    var q' := rest + (wait + late + p + temp);
    QueuedBefore(s, clock, curr, rest, wait, s');
    IncreasingDistinct(late);
    IncreasingDistinct(temp);
    DistinctAppend(rest + wait, late);
    assert rest + wait + late + p == (rest + wait + late) + p;
    DistinctAppend(rest + wait + late, p);
    DistinctAppend(rest + wait + late + p, temp);
    assert q' == rest + wait + late + p + temp;
    forall k | 0 <= k < |q'|
      ensures 0 <= q'[k] < |s'| && !s'[q'[k]].executed && s'[q'[k]].arrivalTime <= clock'
    {
      assert q'[k] in rest + wait || q'[k] in late || q'[k] in p || q'[k] in temp;
    }
    forall x | 0 <= x < |s'| && !s'[x].executed && s'[x].arrivalTime <= clock'
      ensures x in q'
    {
      if x == curr {
        assert x in p;
      } else if s'[x].arrivalTime == clock' {
        assert x in temp;
      } else if x !in late {
        assert x in wait || x in rest;
      }
    }
  }

  /** The head of the queue is a valid, unexecuted row that has arrived,
      and does not occur again in the queues. */
  lemma QueueHead(s: seq<Proc>, clock: int, activeTemp: seq<int>, wait: seq<int>)
    requires |activeTemp| > 0 && RrQueue(s, clock, activeTemp + wait)
    ensures 0 <= activeTemp[0] < |s| && !s[activeTemp[0]].executed && s[activeTemp[0]].arrivalTime <= clock
    ensures activeTemp[0] !in wait
  {
    assert (activeTemp + wait)[0] == activeTemp[0];
    DistinctHead(activeTemp, wait);
  }

  /** After a turn, every executed row arrived no later than the turn began. */
  lemma ExecutedArrivedBefore(s: seq<Proc>, rem: seq<int>, q: int, curr: nat, clock: int)
    requires curr < |s| == |rem| && s[curr].arrivalTime <= clock && ExecutedBy(s, clock)
    ensures ExecutedBy(AfterTurn(s, rem, q, curr, clock), clock)
  {
  }

  /** Lines 259-262: adds the elements of `t` to the queue one by one. */
  method AppendAll(w: seq<int>, t: seq<int>) returns (w': seq<int>)
    ensures w' == w + t
  {
    w' := w;
    for i := 0 to |t|
      invariant w' == w + t[..i]
    {
      w' := w' + [t[i]];
    }
    assert t[..|t|] == t;
  }

  /** The wait queue after the turn of curr (lines 244-262): the old wait
      queue, then the rows that arrived strictly before `clock` and are
      queued nowhere, then curr while it still has work left, then every
      row arriving exactly at `clock`; both groups of newcomers in index
      order.  `rest` is what is left of the active queue; `late` and `temp`
      are the two groups of newcomers. */
  ghost predicate Requeued(s: seq<Proc>, clock: int, curr: int, rest: seq<int>, wait: seq<int>, wait': seq<int>,
                           late: seq<int>, temp: seq<int>)
    requires 0 <= curr < |s|
  {
      wait' == wait + late + (if !s[curr].executed then [curr] else []) + temp &&
      (forall i :: i in late <==>
        0 <= i < |s| && s[i].arrivalTime < clock && !s[i].executed &&
        i != curr && i !in wait && i !in rest) &&
      Increasing(late) &&
      (forall i :: i in temp <==> 0 <= i < |s| && s[i].arrivalTime == clock) &&
      Increasing(temp)
  }

  /** Lines 245-262: after the turn of curr (the head of `activeTemp`),
      curr leaves `activeTemp`; the scan's newcomers, then curr when it is
      still pending, then the rows arriving exactly at `clock` join the wait
      queue.  The new queues hold exactly the rows the queue invariant
      demands at the new clock. */
  method Requeue(a: array<Proc>, clock: int, curr: int, pending: bool, activeTemp: seq<int>, wait: seq<int>,
                 ghost s: seq<Proc>, ghost sysTime: int)
    returns (activeTemp': seq<int>, wait': seq<int>, ghost late: seq<int>, ghost temp: seq<int>)
    requires |activeTemp| > 0 && activeTemp[0] == curr && RrQueue(s, sysTime, activeTemp + wait)
    requires SameExcept(s, a[..], curr) && clock > sysTime
    requires pending == !a[..][curr].executed && ExecutedBy(a[..], sysTime)
    ensures activeTemp' == activeTemp[1..]
    ensures 0 <= curr < a.Length && Requeued(a[..], clock, curr, activeTemp', wait, wait', late, temp)
    ensures RrQueue(a[..], clock, activeTemp' + wait')
  {
    assert activeTemp == [curr] + activeTemp[1..];
    activeTemp' := RemoveFirst(activeTemp, curr);
    var arrivals;
    wait', late, arrivals := ScanArrivals(a, clock, curr, activeTemp', wait);
    temp := arrivals;
    if pending {
      wait' := wait' + [curr];
    }
    if |arrivals| != 0 {
      wait' := AppendAll(wait', arrivals);
    }
    assert activeTemp + wait == [curr] + activeTemp' + wait;
    TurnKeepsQueue(s, sysTime, curr, activeTemp', wait, a[..], clock, late, pending, temp);
    assert wait' == wait + late + (if pending then [curr] else []) + temp;
  }

  /** Lines 229-262: row curr, the head of `activeTemp`, takes its turn and
      the queues are updated.  The turn is appended to the timeline, takes
      its length off the total remaining time, and both invariants hold at
      the new clock. */
  method TakeTurn(a: array<Proc>, rem: array<int>, q: int, curr: int, activeTemp: seq<int>, wait: seq<int>,
                  sysTime: int, ghost s0: seq<Proc>, ghost tr: seq<Slice>)
    returns (clock: int, activeTemp': seq<int>, wait': seq<int>, ghost tr': seq<Slice>,
             ghost late: seq<int>, ghost temp: seq<int>)
    requires a.Length == rem.Length && q > 0 && |activeTemp| > 0 && activeTemp[0] == curr
    requires RrTimeline(s0, a[..], rem[..], tr, sysTime, q)
    requires RrQueue(a[..], sysTime, activeTemp + wait)
    modifies a, rem
    ensures 0 <= curr < a.Length
    ensures clock == sysTime + TurnLength(old(rem[..]), q, curr) > sysTime
    ensures rem[..] == old(rem[..])[curr := old(rem[..])[curr] - TurnLength(old(rem[..]), q, curr)]
    ensures a[..] == AfterTurn(old(a[..]), old(rem[..]), q, curr, sysTime)
    ensures activeTemp' == activeTemp[1..] && Requeued(a[..], clock, curr, activeTemp', wait, wait', late, temp)
    ensures tr' == tr + [Slice(curr, sysTime, clock - sysTime)]
    ensures Sum(rem[..]) < Sum(old(rem[..]))
    ensures RrTimeline(s0, a[..], rem[..], tr', clock, q)
    ensures RrQueue(a[..], clock, activeTemp' + wait')
  {
    QueueHead(a[..], sysTime, activeTemp, wait);
    ghost var s := a[..];
    var pending;
    clock, pending, wait', tr' := TimedTurn(a, rem, q, curr, sysTime, wait, s0, tr);
    assert wait' == wait;
    ghost var s', r' := a[..], rem[..];
    activeTemp', wait', late, temp := Requeue(a, clock, curr, pending, activeTemp, wait, s, sysTime);
    assert a[..] == s' && rem[..] == r';
  }

  /** RunTurn together with what it does to the timeline invariant: the
      turn is appended to the timeline, takes its length off the total
      remaining time, and every executed row arrived before it began. */
  method TimedTurn(a: array<Proc>, rem: array<int>, q: int, curr: int, sysTime: int, wait: seq<int>,
                   ghost s0: seq<Proc>, ghost tr: seq<Slice>)
    returns (clock: int, pending: bool, wait': seq<int>, ghost tr': seq<Slice>)
    requires 0 <= curr < a.Length == rem.Length && q > 0
    requires RrTimeline(s0, a[..], rem[..], tr, sysTime, q)
    requires !a[curr].executed && a[curr].arrivalTime <= sysTime
    modifies a, rem
    ensures pending <==> old(rem[curr]) > q
    ensures clock == sysTime + TurnLength(old(rem[..]), q, curr) > sysTime
    ensures rem[..] == old(rem[..])[curr := old(rem[..])[curr] - TurnLength(old(rem[..]), q, curr)]
    ensures a[..] == AfterTurn(old(a[..]), old(rem[..]), q, curr, sysTime)
    ensures wait' == if pending then wait else RemoveFirst(wait, curr)
    ensures tr' == tr + [Slice(curr, sysTime, clock - sysTime)]
    ensures Sum(rem[..]) < Sum(old(rem[..]))
    ensures RrTimeline(s0, a[..], rem[..], tr', clock, q)
    ensures SameExcept(old(a[..]), a[..], curr) && pending == !a[..][curr].executed
    ensures ExecutedBy(a[..], sysTime)
  {
    ghost var s := a[..];
    ghost var r := rem[..];
    clock, pending, wait' := RunTurn(a, rem, q, curr, sysTime, wait);
    tr' := tr + [Slice(curr, sysTime, clock - sysTime)];
    TurnKeepsTimeline(s0, s, r, tr, sysTime, q, curr, a[..], rem[..], tr', clock);
  }

  /** The total remaining time is never negative. */
  lemma RemainingNonNegative(s0: seq<Proc>, s: seq<Proc>, rem: seq<int>, tr: seq<Slice>, clock: int, q: int)
    requires RrTimeline(s0, s, rem, tr, clock, q)
    ensures Sum(rem) >= 0
  {
    SumNonNegative(rem);
  }

  /** Moves the for-each's invariant `activeTemp == active[idx..]` past the
      row just run: the head of the remaining queue is `active[idx]` and
      its tail is what remains for the next pass.  Kept as a lemma: stated
      inline, the two sequence equalities stay in the loop's context and
      make the round's proof far costlier. */
  lemma SuffixStep(s: seq<int>, i: nat)
    requires i < |s|
    ensures s[i..][0] == s[i] && s[i..][1..] == s[i + 1..]
  {
  }

  /** Carries the queue invariant over to an equal queue expression, so
      that it takes the form the loop invariant names (`active` as
      `activeTemp + wait` on entry, `activeTemp + wait` as `wait` on exit).
      Kept as a lemma for the same reason as SuffixStep. */
  lemma QueueAt(s: seq<Proc>, clock: int, queue: seq<int>, queue': seq<int>)
    requires RrQueue(s, clock, queue) && queue == queue'
    ensures RrQueue(s, clock, queue')
  {
  }

  /** `tr'` is `tr` followed by one slice for each of the first n rows of
      `turns`, for those rows and in that order; the first starts at
      `start` and each later one where the previous one ended, and `clock`
      is where the last one ended (`start` when there is none). */
  ghost predicate RoundTurns(tr: seq<Slice>, tr': seq<Slice>, turns: seq<int>, n: nat, start: int, clock: int)
    requires n <= |turns|
  {
    tr <= tr' && |tr'| == |tr| + n &&
    (forall k :: 0 <= k < n ==>
      tr'[|tr| + k].proc == turns[k] &&
      tr'[|tr| + k].start == (if k == 0 then start else End(tr'[|tr| + k - 1]))) &&
    clock == (if n == 0 then start else End(tr'[|tr'| - 1]))
  }

  /** The turn of the next queued row, starting where the round so far
      ended, extends the round by its slice. */
  lemma RoundTurnsAppend(tr: seq<Slice>, tr': seq<Slice>, turns: seq<int>, n: nat, start: int, clock: int, sl: Slice)
    requires n < |turns| && RoundTurns(tr, tr', turns, n, start, clock)
    requires sl.proc == turns[n] && sl.start == clock
    ensures RoundTurns(tr, tr' + [sl], turns, n + 1, start, End(sl))
  {
    var t := tr' + [sl];
    forall k | 0 <= k < n + 1
      ensures t[|tr| + k].proc == turns[k] &&
        t[|tr| + k].start == (if k == 0 then start else End(t[|tr| + k - 1]))
    {
      if k < n {
        assert t[|tr| + k] == tr'[|tr| + k];
        if k > 0 {
          assert t[|tr| + k - 1] == tr'[|tr| + k - 1];
        }
      } else if k > 0 {
        assert t[|tr| + k - 1] == tr'[|tr'| - 1];
      }
    }
    assert t[..|tr|] == tr'[..|tr|] == tr;
    assert t[|t| - 1] == sl;
  }

  /** Lines 226-263: the for-each over the active queue.  `activeTemp` is
      the part of the active queue still to run; every turn keeps both
      invariants, takes some remaining time off its row, and starts where
      the previous turn ended, so the CPU does not idle during a round. */
  method RunRound(a: array<Proc>, rem: array<int>, q: int, active: seq<int>, sysTime: int,
                  ghost s0: seq<Proc>, ghost tr: seq<Slice>)
    returns (clock: int, wait: seq<int>, ghost tr': seq<Slice>)
    requires a.Length == rem.Length && q > 0 && |active| > 0
    requires RrTimeline(s0, a[..], rem[..], tr, sysTime, q)
    requires RrQueue(a[..], sysTime, active)
    requires NoIdleWhileWaiting(s0, tr) && Busy(s0, tr, sysTime)
    modifies a, rem
    ensures RrTimeline(s0, a[..], rem[..], tr', clock, q)
    ensures RrQueue(a[..], clock, wait)
    ensures Sum(rem[..]) < Sum(old(rem[..]))
    ensures NoIdleWhileWaiting(s0, tr') && Busy(s0, tr', clock)
    ensures RoundTurns(tr, tr', active, |active|, sysTime, clock)
  {
    clock := sysTime;
    wait := [];
    tr' := tr;
    var activeTemp := active;
    assert active == active[0..];
    QueueAt(a[..], clock, active, activeTemp + wait);
    for idx := 0 to |active|
      invariant activeTemp == active[idx..]
      invariant RrTimeline(s0, a[..], rem[..], tr', clock, q)
      invariant RrQueue(a[..], clock, activeTemp + wait)
      invariant Sum(rem[..]) + idx <= Sum(old(rem[..]))
      invariant NoIdleWhileWaiting(s0, tr') && Busy(s0, tr', clock)
      invariant RoundTurns(tr, tr', active, idx, sysTime, clock)
    {
      clock, activeTemp, wait, tr' := RoundStep(a, rem, q, active, idx, activeTemp, wait, clock, s0, tr, tr', sysTime);
    }
    QueueAt(a[..], clock, activeTemp + wait, wait);
  }

  /** One pass of the for-each (lines 230-262): row `active[idx]`, the head
      of `activeTemp`, takes its turn right where the previous one ended,
      and the round so far grows by its slice. */
  method RoundStep(a: array<Proc>, rem: array<int>, q: int, active: seq<int>, idx: nat,
                   activeTemp: seq<int>, wait: seq<int>, clock: int,
                   ghost s0: seq<Proc>, ghost tr: seq<Slice>, ghost tr': seq<Slice>, ghost start: int)
    returns (clock': int, activeTemp': seq<int>, wait': seq<int>, ghost tr'': seq<Slice>)
    requires a.Length == rem.Length && q > 0 && idx < |active| && activeTemp == active[idx..]
    requires RrTimeline(s0, a[..], rem[..], tr', clock, q)
    requires RrQueue(a[..], clock, activeTemp + wait)
    requires NoIdleWhileWaiting(s0, tr') && Busy(s0, tr', clock)
    requires RoundTurns(tr, tr', active, idx, start, clock)
    modifies a, rem
    ensures activeTemp' == active[idx + 1..]
    ensures RrTimeline(s0, a[..], rem[..], tr'', clock', q)
    ensures RrQueue(a[..], clock', activeTemp' + wait')
    ensures Sum(rem[..]) < Sum(old(rem[..]))
    ensures NoIdleWhileWaiting(s0, tr'') && Busy(s0, tr'', clock')
    ensures RoundTurns(tr, tr'', active, idx + 1, start, clock')
  {
    var curr := active[idx];
    SuffixStep(active, idx);
    ghost var late, temp;
    clock', activeTemp', wait', tr'', late, temp := TakeTurn(a, rem, q, curr, activeTemp, wait, clock, s0, tr');
    AppendBusy(s0, tr', Slice(curr, clock, clock' - clock));
    RoundTurnsAppend(tr, tr', active, idx, start, clock, Slice(curr, clock, clock' - clock));
  }

  /** The clock may move forward over a stretch without slices. */
  lemma ClockForward(s0: seq<Proc>, s: seq<Proc>, rem: seq<int>, tr: seq<Slice>, clock: int, clock': int, q: int)
    requires RrTimeline(s0, s, rem, tr, clock, q) && clock <= clock'
    ensures RrTimeline(s0, s, rem, tr, clock', q)
  {
  }

  /** With empty queues every unexecuted row arrives after the clock. */
  lemma EmptyQueueIdle(s: seq<Proc>, clock: int, b: int)
    requires RrQueue(s, clock, []) && 0 <= b < |s| && !s[b].executed
    ensures s[b].arrivalTime > clock
  {
  }

  /** Lines 210-226: both queues are empty.  The clock jumps to the arrival
      of the first unexecuted row, which lies ahead, and the active queue
      becomes the rows that have arrived by then and are unexecuted, in
      index order.  No row with work left arrives before the new clock, so
      the CPU idled only while nothing waited. */
  method IdleRefill(a: array<Proc>, sysTime: int, q: int, ghost s0: seq<Proc>, ghost rem: seq<int>, ghost tr: seq<Slice>)
    returns (clock: int, active: seq<int>)
    requires RrTimeline(s0, a[..], rem, tr, sysTime, q) && RrQueue(a[..], sysTime, [])
    requires !AllExecuted(a[..]) && SortedByArrival(s0)
    ensures exists b ::
      0 <= b < a.Length && !a[b].executed && (forall i :: 0 <= i < b ==> a[i].executed) && clock == a[b].arrivalTime
    ensures clock > sysTime
    ensures Increasing(active)
    ensures forall i :: i in active <==> 0 <= i < a.Length && a[i].arrivalTime <= clock && !a[i].executed
    ensures |active| > 0
    ensures forall i :: 0 <= i < a.Length && !a[i].executed ==> a[i].arrivalTime >= clock
    ensures RrTimeline(s0, a[..], rem, tr, clock, q) && RrQueue(a[..], clock, active)
    ensures Busy(s0, tr, clock)
    ensures RoundQueue(a[..], sysTime, [], clock, active)
  {
    var b := FirstUnexecuted(a);
    EmptyQueueIdle(a[..], sysTime, b);
    clock := a[b].arrivalTime;
    ClockForward(s0, a[..], rem, tr, sysTime, clock, q);
    active := ArrivedPending(a, clock);
    ScannedQueue(a[..], clock, active);
    assert b in active;
    forall i | 0 <= i < a.Length && !a[i].executed
      ensures a[i].arrivalTime >= clock
    {
      assert b <= i;
    }
    forall k | 0 <= k < |s0| && Served(tr, k) < s0[k].cpuBurstTime
      ensures s0[k].arrivalTime >= clock
    {
      assert !a[k].executed;
      assert b <= k;
    }
  }

  lemma InitialTimeline(s0: seq<Proc>, rem: seq<int>, clock: int, q: int)
    requires PositiveBursts(s0) && NoneExecuted(s0)
    requires |rem| == |s0| && forall i :: 0 <= i < |s0| ==> rem[i] == s0[i].cpuBurstTime
    ensures RrTimeline(s0, s0, rem, [], clock, q)
  {
  }

  /** Once every row is executed the timeline is a complete schedule. */
  lemma {:induction false} FinalTimeline(s0: seq<Proc>, s: seq<Proc>, rem: seq<int>, tr: seq<Slice>, clock: int, q: int)
    requires RrTimeline(s0, s, rem, tr, clock, q) && AllExecuted(s) && NoIdleWhileWaiting(s0, tr)
    ensures forall i :: 0 <= i < |s| ==> s[i] == s0[i].(finishTime := s[i].finishTime, executed := true)
    ensures ValidSchedule(s, tr)
    ensures forall j :: 0 <= j < |tr| ==> tr[j].len <= q
    ensures forall j :: 0 <= j < |tr| && tr[j].len != q ==> Completion(tr, tr[j].proc) == End(tr[j])
    ensures NoIdleWhileWaiting(s, tr)
  {
    assert SameInputs(s0, s);
    FitsSameInputs(s0, s, tr);
    NoIdleSameInputs(s0, s, tr);
  }

  /** Lines 194-208: the clock starts at the first arrival, the remaining
      times at the bursts, and the wait queue holds the rows that have
      arrived by then. */
  method Start(a: array<Proc>, q: int, ghost s0: seq<Proc>)
    returns (sysTime: int, rem: array<int>, waitQ: seq<int>, ghost tr: seq<Slice>)
    requires Runnable(a[..]) && s0 == a[..]
    ensures fresh(rem) && rem.Length == a.Length
    ensures sysTime == a[0].arrivalTime && tr == []
    ensures forall i :: 0 <= i < a.Length ==> rem[i] == a[i].cpuBurstTime
    ensures Increasing(waitQ)
    ensures forall i :: i in waitQ <==> 0 <= i < a.Length && a[i].arrivalTime <= sysTime && !a[i].executed
    ensures RrTimeline(s0, a[..], rem[..], tr, sysTime, q) && RrQueue(a[..], sysTime, waitQ)
    ensures !AllExecuted(a[..]) && Sum(rem[..]) >= 0
    ensures NoIdleWhileWaiting(s0, tr) && Busy(s0, tr, sysTime)
  {
    sysTime := a[0].arrivalTime;
    rem := InitRemaining(a);
    waitQ := ArrivedPending(a, sysTime);
    ScannedQueue(a[..], sysTime, waitQ);
    tr := [];
    InitialTimeline(s0, rem[..], sysTime, q);
    assert !a[..][0].executed;
    RemainingNonNegative(s0, a[..], rem[..], tr, sysTime, q);
    StartBusy(s0);
  }

  /** The queue a round runs and the time it starts: the wait queue at the
      current clock when it is not empty; otherwise the clock jumps to the
      next arrival among the unexecuted rows, all of which have arrived by
      then, and the queue is those rows in index order. */
  ghost predicate RoundQueue(s: seq<Proc>, sysTime: int, waitQ: seq<int>, start: int, active: seq<int>)
  {
    (|waitQ| > 0 ==> active == waitQ && start == sysTime) &&
    (|waitQ| == 0 ==>
      start > sysTime && |active| > 0 && Increasing(active) &&
      (forall i :: i in active <==> 0 <= i < |s| && s[i].arrivalTime <= start && !s[i].executed) &&
      (forall i :: 0 <= i < |s| && !s[i].executed ==> s[i].arrivalTime >= start))
  }

  /** One pass of the outer loop (lines 209-272): the wait queue moves into
      the active queue, which is refilled after an idle stretch when both are
      empty; every row in it takes a turn; `more` tells whether some row is
      still unexecuted.  The total remaining time strictly decreases. */
  method Cycle(a: array<Proc>, rem: array<int>, q: int, waitQ: seq<int>, sysTime: int,
               ghost s0: seq<Proc>, ghost tr: seq<Slice>)
    returns (clock: int, waitQ': seq<int>, ghost tr': seq<Slice>, more: bool,
             ghost start: int, ghost active: seq<int>)
    requires a.Length == rem.Length && q > 0
    requires RrTimeline(s0, a[..], rem[..], tr, sysTime, q)
    requires RrQueue(a[..], sysTime, waitQ) && !AllExecuted(a[..])
    requires SortedByArrival(s0) && NoIdleWhileWaiting(s0, tr) && Busy(s0, tr, sysTime)
    modifies a, rem
    ensures RrTimeline(s0, a[..], rem[..], tr', clock, q)
    ensures RrQueue(a[..], clock, waitQ')
    ensures more <==> !AllExecuted(a[..])
    ensures 0 <= Sum(rem[..]) < Sum(old(rem[..]))
    ensures NoIdleWhileWaiting(s0, tr') && Busy(s0, tr', clock)
    ensures RoundQueue(old(a[..]), sysTime, waitQ, start, active)
    ensures RoundTurns(tr, tr', active, |active|, start, clock)
  {
    var activeQ: seq<int> := [];
    activeQ := activeQ + waitQ;
    var waiting: seq<int> := [];
    var begin := sysTime;
    QueueAt(a[..], sysTime, waitQ, activeQ);
    if |activeQ| == 0 && |waiting| == 0 {
      begin, activeQ := IdleRefill(a, sysTime, q, s0, rem[..], tr);
      assert waitQ == [];
    }
    start, active := begin, activeQ;
    ghost var s := a[..];
    assert RoundQueue(s, sysTime, waitQ, start, active);
    clock, waitQ', tr' := RunRound(a, rem, q, activeQ, begin, s0, tr);
    more := AnyUnexecuted(a);
    RemainingNonNegative(s0, a[..], rem[..], tr', clock, q);
  }

  /** getProcessFinishTime for Round Robin.  Every row ends executed and
      only finish and executed change; the ghost timeline is a valid
      schedule whose turns last at most one quantum, a turn shorter than a
      quantum is the last turn of its row, and the CPU never idles while an
      arrived row has work left. */
  method RrFinishTimes(a: array<Proc>, q: int) returns (ghost tr: seq<Slice>)
    requires Runnable(a[..]) && q > 0
    modifies a
    ensures AllExecuted(a[..])
    ensures forall i :: 0 <= i < a.Length ==>
      a[i] == old(a[i]).(finishTime := a[i].finishTime, executed := true)
    ensures ValidSchedule(a[..], tr)
    ensures forall j :: 0 <= j < |tr| ==> tr[j].len <= q
    ensures forall j :: 0 <= j < |tr| && tr[j].len != q ==> Completion(tr, tr[j].proc) == End(tr[j])
    ensures NoIdleWhileWaiting(a[..], tr)
  {
    ghost var s0 := a[..];
    var sysTime, rem, waitQ;
    sysTime, rem, waitQ, tr := Start(a, q, s0);
    ghost var clock;
    tr, clock := Cycles(a, rem, q, waitQ, sysTime, s0, tr);
    FinalTimeline(s0, a[..], rem[..], tr, clock, q);
  }

  /** Lines 209-272: rounds run until every row is executed; each keeps
      the timeline and queue invariants and the CPU from idling while work
      waits, and takes some remaining time off. */
  method Cycles(a: array<Proc>, rem: array<int>, q: int, waitQ: seq<int>, sysTime: int,
                ghost s0: seq<Proc>, ghost tr: seq<Slice>)
    returns (ghost tr': seq<Slice>, ghost clock: int)
    requires a.Length == rem.Length && q > 0 && SortedByArrival(s0)
    requires RrTimeline(s0, a[..], rem[..], tr, sysTime, q)
    requires RrQueue(a[..], sysTime, waitQ) && !AllExecuted(a[..]) && Sum(rem[..]) >= 0
    requires NoIdleWhileWaiting(s0, tr) && Busy(s0, tr, sysTime)
    modifies a, rem
    ensures RrTimeline(s0, a[..], rem[..], tr', clock, q) && AllExecuted(a[..])
    ensures NoIdleWhileWaiting(s0, tr')
  {
    var time, queue := sysTime, waitQ;
    tr' := tr;
    while true
      invariant RrTimeline(s0, a[..], rem[..], tr', time, q)
      invariant RrQueue(a[..], time, queue)
      invariant !AllExecuted(a[..]) && Sum(rem[..]) >= 0
      invariant NoIdleWhileWaiting(s0, tr') && Busy(s0, tr', time)
      decreases Sum(rem[..])
    {
      var more;
      ghost var start, active;
      time, queue, tr', more, start, active := Cycle(a, rem, q, queue, time, s0, tr');
      if !more {
        break;
      }
    }
    clock := time;
  }
}
