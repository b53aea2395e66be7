/** The turnaround and waiting-time passes (getProcessTAT and
    getProcessWaitTime) that every policy runs after its finish-time pass.
    The four scheduler classes write them separately and clamp differently;
    `Policy` says which class's pass is meant. */
module Metrics {
  import opened Processes

  datatype Policy = FCFS | SJF | RR | SRTF

  function Max0(x: int): int
  {
    if x < 0 then 0 else x
  }

  /** The turnaround a policy's pass stores: finish minus arrival; the
      Round-Robin pass turns anything below 1 into 0. */
  function TurnaroundOf(p: Policy, r: Proc): (t: int)
    ensures p != RR ==> t == r.finishTime - r.arrivalTime
    ensures p == RR ==> t == Max0(r.finishTime - r.arrivalTime)
  {
    var t := r.finishTime - r.arrivalTime;
    if p == RR && t < 1 then 0 else t
  }

  /** The waiting time a policy's pass stores, from the stored turnaround:
      turnaround minus burst, unclamped for SJF and otherwise clamped at 0
      (FCFS tests `< 0`, RR `< 1`, SRTF `<= 0`, which agree on integers). */
  function WaitOf(p: Policy, r: Proc): (w: int)
    ensures p == SJF ==> w == r.turnArndTime - r.cpuBurstTime
    ensures p != SJF ==> w == Max0(r.turnArndTime - r.cpuBurstTime)
  {
    var w := r.turnArndTime - r.cpuBurstTime;
    match p
    case SJF => w
    case FCFS => if w < 0 then 0 else w
    case RR => if w < 1 then 0 else w
    case SRTF => if w <= 0 then 0 else w
  }

  /** getProcessTAT: stores each row's turnaround; nothing else changes. */
  method GetProcessTAT(a: array<Proc>, p: Policy)
    modifies a
    ensures forall i :: 0 <= i < a.Length ==>
      a[i] == old(a[i]).(turnArndTime := TurnaroundOf(p, old(a[i])))
  {
    for i := 0 to a.Length
      invariant forall k :: 0 <= k < i ==> a[k] == old(a[k]).(turnArndTime := TurnaroundOf(p, old(a[k])))
      invariant forall k :: i <= k < a.Length ==> a[k] == old(a[k])
    {
      var tat := a[i].finishTime - a[i].arrivalTime;
      if p == RR && tat < 1 {
        tat := 0;
      }
      a[i] := a[i].(turnArndTime := tat);
    }
  }

  /** getProcessWaitTime: stores each row's waiting time; nothing else
      changes. */
  method GetProcessWaitTime(a: array<Proc>, p: Policy)
    modifies a
    ensures forall i :: 0 <= i < a.Length ==>
      a[i] == old(a[i]).(waitTime := WaitOf(p, old(a[i])))
  {
    for i := 0 to a.Length
      invariant forall k :: 0 <= k < i ==> a[k] == old(a[k]).(waitTime := WaitOf(p, old(a[k])))
      invariant forall k :: i <= k < a.Length ==> a[k] == old(a[k])
    {
      var w := a[i].turnArndTime - a[i].cpuBurstTime;
      match p {
        case SJF =>
        case FCFS => if w < 0 { w := 0; }
        case RR => if w < 1 { w := 0; }
        case SRTF => if w <= 0 { w := 0; }
      }
      a[i] := a[i].(waitTime := w);
    }
  }

  /** For a row that finished no earlier than its arrival plus its burst,
      none of the clamps fires: every policy stores turnaround = finish -
      arrival >= burst and wait = turnaround - burst >= 0, so the four passes
      agree although they are written differently. */
  lemma MetricsExact(p: Policy, r: Proc)
    requires r.cpuBurstTime > 0 && r.finishTime >= r.arrivalTime + r.cpuBurstTime
    ensures TurnaroundOf(p, r) == r.finishTime - r.arrivalTime >= r.cpuBurstTime
    ensures WaitOf(p, r.(turnArndTime := TurnaroundOf(p, r))) ==
            r.finishTime - r.arrivalTime - r.cpuBurstTime >= 0
  {
  }
}
