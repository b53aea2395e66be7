/** The two bubble sorts of the utility section (sortProcessByArrival,
    sortProcessByPID) and the arrival sort with the pId tie-break its tie
    branch was meant to apply.  All three share one in-place loop,
    parameterised by the comparison that decides a swap. */
module Sorting {
  import opened Processes

  /** The comparison a bubble sort swaps on. */
  datatype Order = ByArrival | ByPid | ByArrivalThenPid

  /** `x` must move behind `y`: the condition under which the sort swaps two
      neighbours. */
  predicate Greater(o: Order, x: Proc, y: Proc)
  {
    match o
    case ByArrival => x.arrivalTime > y.arrivalTime
    case ByPid => x.pId > y.pId
    case ByArrivalThenPid =>
      x.arrivalTime > y.arrivalTime || (x.arrivalTime == y.arrivalTime && x.pId > y.pId)
  }

  predicate SortedBy(o: Order, s: seq<Proc>)
  {
    forall i, j :: 0 <= i < j < |s| ==> !Greater(o, s[i], s[j])
  }

  /** The rows of `s` with arrival time `t`, in table order. */
  function WithArrival(s: seq<Proc>, t: int): seq<Proc>
  {
    if s == [] then []
    else WithArrival(s[..|s| - 1], t) + (if s[|s| - 1].arrivalTime == t then [s[|s| - 1]] else [])
  }

  /** `r` keeps the table order of rows that share an arrival time. */
  ghost predicate StableByArrival(r: seq<Proc>, s: seq<Proc>)
  {
    forall t :: WithArrival(r, t) == WithArrival(s, t)
  }

  lemma {:induction false} NotGreaterTransitive(o: Order, x: Proc, y: Proc, z: Proc)
    requires !Greater(o, x, y) && !Greater(o, y, z)
    ensures !Greater(o, x, z)
  {
  }

  lemma {:induction false} WithArrivalAppend(s: seq<Proc>, u: seq<Proc>, t: int)
    ensures WithArrival(s + u, t) == WithArrival(s, t) + WithArrival(u, t)
    decreases |u|
  {
    if u == [] {
      assert s + u == s;
    } else {
      var n := |u| - 1;
      assert (s + u)[..|s + u| - 1] == s + u[..n];
      WithArrivalAppend(s, u[..n], t);
    }
  }

  /** Swapping two neighbours with different arrival times keeps, for every
      arrival time, the order of the rows that have it. */
  lemma {:induction false} SwapKeepsStable(s: seq<Proc>, j: nat)
    requires j + 1 < |s| && s[j].arrivalTime != s[j + 1].arrivalTime
    ensures StableByArrival(Swapped(s, j), s)
  {
    var r := Swapped(s, j);
    var pre, post := s[..j], s[j + 2..];
    assert s == pre + [s[j], s[j + 1]] + post;
    assert r == pre + [s[j + 1], s[j]] + post;
    forall t ensures WithArrival(r, t) == WithArrival(s, t) {
      WithArrivalAppend(pre + [s[j + 1], s[j]], post, t);
      WithArrivalAppend(pre, [s[j + 1], s[j]], t);
      WithArrivalAppend(pre + [s[j], s[j + 1]], post, t);
      WithArrivalAppend(pre, [s[j], s[j + 1]], t);
      assert [s[j + 1], s[j]][..1] == [s[j + 1]];
      assert [s[j], s[j + 1]][..1] == [s[j]];
    }
  }

  lemma StableTrans(r: seq<Proc>, s: seq<Proc>, u: seq<Proc>)
    requires StableByArrival(r, s) && StableByArrival(s, u)
    ensures StableByArrival(r, u)
  {
  }

  /** The neighbours `j`, `j + 1` exchanged. */
  function Swapped(s: seq<Proc>, j: nat): seq<Proc>
    requires j + 1 < |s|
  {
    s[j := s[j + 1]][j + 1 := s[j]]
  }

  /** Positions `m` onwards hold their final values: they are sorted and no
      earlier row must move behind them. */
  ghost predicate SuffixDone(o: Order, s: seq<Proc>, m: int)
  {
    (forall p, q :: 0 <= p && m <= p < q < |s| ==> !Greater(o, s[p], s[q])) &&
    (forall p, q :: 0 <= p < m <= q < |s| ==> !Greater(o, s[p], s[q]))
  }

  /** Inside a pass: row `j` is a greatest of rows 0..j, and once the pass
      has reached position m - 1, that row is a greatest of rows 0..m-1. */
  ghost predicate PassDone(o: Order, s: seq<Proc>, m: int, j: nat)
    requires j < |s|
  {
    SuffixDone(o, s, m) &&
    (forall k :: 0 <= k < j ==> !Greater(o, s[k], s[j])) &&
    (j >= m - 1 ==> forall p :: 0 <= p < m - 1 ==> !Greater(o, s[p], s[m - 1]))
  }

  /** One comparison of the inner loop keeps the pass invariant. */
  lemma {:induction false} PassStep(o: Order, s: seq<Proc>, m: int, j: nat)
    requires j + 1 < |s| && m <= |s| && PassDone(o, s, m, j)
    ensures Greater(o, s[j], s[j + 1]) ==> j + 1 < m && PassDone(o, Swapped(s, j), m, j + 1)
    ensures !Greater(o, s[j], s[j + 1]) ==> PassDone(o, s, m, j + 1)
  {
    if Greater(o, s[j], s[j + 1]) {
      var r := Swapped(s, j);
      assert j + 1 < m;
      assert forall k :: 0 <= k < j + 1 ==> !Greater(o, r[k], r[j + 1]);
    } else {
      forall k | 0 <= k < j ensures !Greater(o, s[k], s[j + 1]) {
        NotGreaterTransitive(o, s[k], s[j], s[j + 1]);
      }
    }
  }

  /** The end of a pass extends the finished suffix by one position. */
  lemma {:induction false} PassEnd(o: Order, s: seq<Proc>, m: int)
    requires 0 < m <= |s| && PassDone(o, s, m, |s| - 1)
    ensures SuffixDone(o, s, m - 1)
  {
  }

  /** One comparison of the inner loop: swaps rows `j` and `j + 1` when they
      are out of order, which carries a greatest row of 0..j to position
      j + 1 and changes nothing else but their order. */
  method CompareNeighbours(a: array<Proc>, o: Order, m: int, j: nat)
    requires j + 1 < a.Length && m <= a.Length && PassDone(o, a[..], m, j)
    modifies a
    ensures PassDone(o, a[..], m, j + 1)
    ensures multiset(a[..]) == multiset(old(a[..]))
    ensures o == ByArrival ==> StableByArrival(a[..], old(a[..]))
  {
    PassStep(o, a[..], m, j);
    if Greater(o, a[j], a[j + 1]) {
      ghost var prev := a[..];
      a[j], a[j + 1] := a[j + 1], a[j];
      assert a[..] == Swapped(prev, j);
      if o == ByArrival {
        SwapKeepsStable(prev, j);
      }
    }
  }

  /** One pass of the inner loop: compares every pair of neighbours from the
      front, swapping those out of order, and so carries a greatest row of
      0..m-1 to position m - 1. */
  method BubblePass(a: array<Proc>, o: Order, m: int)
    requires 0 < m <= a.Length && SuffixDone(o, a[..], m)
    modifies a
    ensures SuffixDone(o, a[..], m - 1)
    ensures multiset(a[..]) == multiset(old(a[..]))
    ensures o == ByArrival ==> StableByArrival(a[..], old(a[..]))
  {
    var n := a.Length;
    var j := 0;
    while j < n - 1
      invariant 0 <= j < n
      invariant PassDone(o, a[..], m, j)
      invariant multiset(a[..]) == multiset(old(a[..]))
      invariant o == ByArrival ==> StableByArrival(a[..], old(a[..]))
    {
      ghost var prev := a[..];
      CompareNeighbours(a, o, m, j);
      if o == ByArrival {
        StableTrans(a[..], prev, old(a[..]));
      }
      j := j + 1;
    }
    PassEnd(o, a[..], m);
  }

  /** The nested loops shared by the sorts: `n` passes over the table, each
      swapping neighbours that are out of order.  The result is sorted, a
      permutation of the input, and, when sorting by arrival, keeps the
      table order of rows with equal arrival times. */
  method BubbleSort(a: array<Proc>, o: Order)
    modifies a
    ensures SortedBy(o, a[..])
    ensures multiset(a[..]) == multiset(old(a[..]))
    ensures o == ByArrival ==> StableByArrival(a[..], old(a[..]))
  {
    var n := a.Length;
    for i := 0 to n
      invariant SuffixDone(o, a[..], n - i)
      invariant multiset(a[..]) == multiset(old(a[..]))
      invariant o == ByArrival ==> StableByArrival(a[..], old(a[..]))
    {
      BubblePass(a, o, n - i);
    }
  }

  /** sortProcessByArrival.  Its tie branch compares a row's pId with itself,
      so it never swaps: the sort orders by arrival time only and keeps the
      input order of rows that arrive together. */
  method SortProcessByArrival(a: array<Proc>)
    modifies a
    ensures SortedByArrival(a[..])
    ensures multiset(a[..]) == multiset(old(a[..]))
    ensures StableByArrival(a[..], old(a[..]))
  {
    BubbleSort(a, ByArrival);
  }

  /** sortProcessByPID: ascending pId, a permutation of the input. */
  method SortProcessByPID(a: array<Proc>)
    modifies a
    ensures SortedByPid(a[..])
    ensures multiset(a[..]) == multiset(old(a[..]))
  {
    BubbleSort(a, ByPid);
  }

  /** The arrival sort with the tie-break its tie branch evidently intends:
      ascending arrival time, and ascending pId among rows that arrive
      together. */
  method SortProcessByArrivalThenPid(a: array<Proc>)
    modifies a
    ensures SortedByArrival(a[..])
    ensures forall i, j :: 0 <= i < j < a.Length && a[i].arrivalTime == a[j].arrivalTime ==>
      a[i].pId <= a[j].pId
    ensures multiset(a[..]) == multiset(old(a[..]))
  {
    BubbleSort(a, ByArrivalThenPid);
  }

  /** The as-written arrival sort leaves two rows that arrive together in
      their input order even when their pIds are descending: for the table
      [(pId 2, arrival 0), (pId 1, arrival 0)] every result that
      SortProcessByArrival allows is the input itself, so the tie is never
      broken by pId. */
  lemma {:induction false} ArrivalTieKeepsInputOrder(x: Proc, y: Proc, r: seq<Proc>)
    requires x.arrivalTime == y.arrivalTime && x.pId > y.pId
    requires |r| == 2 && StableByArrival(r, [x, y])
    ensures r == [x, y] && r[0].pId > r[1].pId
  {
    var t := x.arrivalTime;
    assert [x, y][..1] == [x] && [x][..0] == [];
    assert WithArrival([x], t) == [x];
    assert WithArrival([x, y], t) == [x, y];
    assert WithArrival(r, t) == [x, y];
    assert r[..1] == [r[0]] && r[..1][..0] == [];
    assert WithArrival(r, t) ==
      (if r[0].arrivalTime == t then [r[0]] else []) + (if r[1].arrivalTime == t then [r[1]] else []);
  }
}
