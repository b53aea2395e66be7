# CPU scheduling simulator — verified model of the scheduling core

This project models the scheduling core of `JobScheduling.java` in Dafny:
- the four finish-time engines: First-Come-First-Served, non-preemptive
  Shortest-Job-First, Round Robin and preemptive Shortest-Remaining-Time-First;
- the turnaround and waiting-time passes each engine runs afterwards;
- the bubble sorts by arrival time and by pId;
- the reset of the derived fields;
- the reset → sort → schedule → save sequence that `scheduleProcesses` runs
  for a chosen policy, down to the text of each output line.

The process table (`processArray`) is an `array<Proc>`. `Proc` is a record with:
- the three input fields: pId, arrival time and CPU burst;
- the four fields the simulation fills in: finish, wait, turnaround and executed.

Each engine is an imperative method over that array, written with the
source's loops, clock and counters. Round Robin and SRTF keep their
`remainingTime` array as an `array<int>`, and the Round-Robin queues are
`seq<int>` values the loop reassigns.

Besides the table, every engine returns a ghost CPU timeline: a sequence of
slices `(row, start, length)`. Its postcondition states `ValidSchedule`
(`timeline.dfy`):
- the slices run one at a time;
- each slice starts no earlier than its row's arrival;
- each row receives exactly its burst;
- each row's finish time is the end of its last slice.

From a valid schedule, `FinishAfterWork` gives finish ≥ arrival + burst. So
for every policy none of the clamps in the metric passes ever fires:
- turnaround is exactly finish − arrival and is at least the burst;
- waiting time is exactly turnaround − burst and is never negative.

The Shortest-Job-First unclamped wait is therefore never negative.

Policy-specific promises:
- **FCFS**: finish times follow the carried clock `FcfsClock`: each row
  starts at the later of the clock and its arrival. They never decrease
  along the table.
- **SJF**: every dispatch takes an arrived, unexecuted row whose burst is
  minimal, the first such row on ties (`ShortestFirst`). Each row runs once
  for its whole burst. An idle tick happens only before the last arrival,
  and only while no unexecuted row has arrived.
- **RR**:
  - Every turn lasts at most a quantum. A shorter turn is the row's last one.
  - After every turn the queues hold exactly the arrived, unexecuted rows,
    each once (`RrQueue`). The requeue order is:
    1. rows that arrived strictly before the new clock, in index order;
    2. then the preempted row;
    3. then the rows arriving exactly at the new clock.
  - The unguarded `else if` at line 252 therefore never queues an executed or
    already-queued row.
  - A round appends exactly one slice per row of the active queue, in queue
    order, the first at the round's start and each later one where the
    previous one ended (`RoundTurns`). The round's queue is the wait queue,
    or after an idle stretch the arrived, unexecuted rows in index order at
    the next arrival (`RoundQueue`).
- **SRTF**:
  - When some unexecuted row has arrived by the clock, the incumbent has the
    least remaining time among the arrived, unexecuted rows, the first such
    row on ties (`SelectIncumbent`, `Incumbent`).
  - When none has arrived, the idle branch (lines 347-353) moves the index
    to `shortest + 1` and the clock to that row's arrival, and that row runs
    without a new choice. Other rows arriving at the same instant with less
    remaining time then wait (see Findings).
  - A preemption moves the clock and the incumbent's remaining time by the
    same positive amount, less than the remaining time (`PreemptionShortens`).
    So the scan window, which uses the incumbent's whole burst rather than
    its remaining time, never admits a row that could not preempt.
  - Because `fIn` is re-declared on every pass, the preemption point is the
    gap to the LAST qualifying row in table order.
  - Each iteration's whole decision is one predicate (`Decided`): which
    incumbent, from when, whether and until when it is preempted. `Iterate`
    ties the new rows, remaining times, clock and timeline to that decision.
  - The index `shortest + 1` is proved to stay inside the table. The jump
    can land on an already-executed row and move the clock backwards; such
    an iteration changes nothing, and the loop still terminates. The
    measure is the total remaining time, then the distance of the index to
    the end of the table.
- **SJF, RR and SRTF** never leave the CPU idle while an arrived row has work
  left (`NoIdleWhileWaiting` in `timeline.dfy`). Every slice starts where
  the previous one ended, unless no row with work left had arrived before
  it starts. In particular the first slice starts at the earliest arrival.

The pipeline carries each engine's promise (`Pipeline.EnginePromise`)
through the metric passes to the table `Schedule` leaves behind. The output
file gets one line per row: pId, finish, wait and turnaround, each as
`Long.toString` renders it, separated by single spaces (`output.dfy`). The
source only writes these lines. The model adds a reader (split on spaces,
read each decimal) and proves that every line reads back as its row's four
numbers.

Where the code departs from the usual textbook definitions of these
policies, the model follows the code:
- **SRTF:** the usual definition re-chooses at every arrival and whenever
  the CPU becomes free, and it compares a newcomer with the incumbent's
  remaining time at that instant. The code differs:
  - its window is the incumbent's whole burst, not its remaining time (this
    admits no extra preemption, see above);
  - on ties it takes the lowest index among rows of least remaining time,
    so a running incumbent has no priority;
  - it preempts at the last qualifying arrival in table order rather than
    the first;
  - after an idle stretch it runs row `shortest + 1` without choosing again.
- **RR:** a common convention puts rows that arrive exactly when a quantum
  expires ahead of the preempted row. The code puts them behind it.
- **Wait clamp:** the four waiting-time passes differ. The
  Shortest-Job-First pass does not clamp, and the other three clamp with
  `< 0`, `< 1` and `<= 0`. `Metrics.WaitOf` keeps these differences.
- **Arrival sort:** the tie branch at lines 449-455 is written to order rows
  that arrive together by pId, but it never does (see Findings).

## Model

| member | source | states |
|---|---|---|
| Processes.ResetProcessDetail | src/SchedulingPolicies/JobScheduling.java:489-497 | every row's finish, wait, turnaround and executed are cleared; pId, arrival and burst are unchanged; no row is executed |
| Processes.ClearedAllIdempotent | src/SchedulingPolicies/JobScheduling.java:489-497 | resetting twice equals resetting once, and a reset table keeps its input fields with no row executed |
| Processes.CountExecutedFull | src/SchedulingPolicies/JobScheduling.java:92-93 | the executed counter reaches the table size exactly when every row is executed (the loop exit of the SJF and SRTF engines) |
| Processes.CountExecutedMark | src/SchedulingPolicies/JobScheduling.java:109-110 | marking one unexecuted row executed raises the executed count by exactly one |
| Processes.CountExecutedNone | src/SchedulingPolicies/JobScheduling.java:87 | a freshly reset table has executed count 0, the counter's initial value |
| Sorting.CompareNeighbours | src/SchedulingPolicies/JobScheduling.java:444-448 | one comparison swaps two neighbours exactly when they are out of order, carrying a greatest row of the prefix one position on; the table stays a permutation and (by arrival) keeps the order of equal arrivals |
| Sorting.BubblePass | src/SchedulingPolicies/JobScheduling.java:443-456 | one inner pass carries a greatest remaining row to the end of the unsorted prefix, permutes the table, and (by arrival) keeps the order of equal arrivals |
| Sorting.BubbleSort | src/SchedulingPolicies/JobScheduling.java:440-481 | the nested swap loops leave the table sorted by the comparison and a permutation of the input; by arrival they also keep equal arrivals in input order |
| Sorting.SwapKeepsStable | src/SchedulingPolicies/JobScheduling.java:444-448 | swapping neighbours with different arrival times keeps, for every arrival time, the order of the rows that have it |
| Sorting.SortProcessByArrival | src/SchedulingPolicies/JobScheduling.java:440-460 | the result is non-decreasing in arrival time, a permutation of the input, and keeps the input order of rows that arrive together |
| Sorting.SortProcessByPID | src/SchedulingPolicies/JobScheduling.java:468-481 | the result is non-decreasing in pId and a permutation of the input |
| Sorting.ArrivalTieKeepsInputOrder | src/SchedulingPolicies/JobScheduling.java:449-455 | for two rows arriving together with descending pIds, the only result the as-written sort allows is the input order, so the pId tie-break never happens |
| Sorting.SortProcessByArrivalThenPid | src/SchedulingPolicies/JobScheduling.java:449-455 | the intended sort: non-decreasing arrival, ascending pId among equal arrivals, a permutation of the input |
| Metrics.GetProcessTAT | src/SchedulingPolicies/JobScheduling.java:288-297 | each row's turnaround becomes finish − arrival, clamped to 0 below 1 only for Round Robin (lines 116-120, 155-159, 424-428 for the others); nothing else changes |
| Metrics.GetProcessWaitTime | src/SchedulingPolicies/JobScheduling.java:278-286 | each row's wait becomes turnaround − burst, unclamped for SJF (122-126) and clamped to 0 for FCFS (146-153), RR and SRTF (414-422); nothing else changes |
| Metrics.MetricsExact | src/SchedulingPolicies/JobScheduling.java:146-160 | for a row finishing no earlier than arrival + burst every policy stores turnaround = finish − arrival ≥ burst and wait = turnaround − burst ≥ 0, so no clamp fires |
| Timeline.AppendBusy | src/SchedulingPolicies/JobScheduling.java:106-111 | a slice starting where the previous slice ended, or when no arrived row has work left, keeps the timeline free of idle waiting, and its end is again such an instant |
| Timeline.StartBusy | src/SchedulingPolicies/JobScheduling.java:86 | starting the clock at the first arrival of a table sorted by arrival is an instant at which no row waits idle |
| Timeline.NoIdleEverySlice | src/SchedulingPolicies/JobScheduling.java:88-112 | the no-idle property holds exactly when every slice starts at a busy instant of the slices before it: the end of the previous slice, or an instant at which no row with work left has arrived |
| Timeline.NoIdleSameInputs | src/SchedulingPolicies/JobScheduling.java:106-111 | the no-idle property depends only on arrivals and bursts, so it survives the engine's updates of finish and executed |
| Timeline.IdleScheduleRejected | src/SchedulingPolicies/JobScheduling.java:103-105 | a schedule that is valid but leaves the CPU idle while a row waits is told apart by the no-idle property, so that property adds to a valid schedule |
| Timeline.FinishAfterWork | src/SchedulingPolicies/JobScheduling.java:116-126 | in a valid schedule every row finishes at or after its arrival plus its burst, which makes the unclamped SJF wait non-negative |
| FirstComeFirstServe.FcfsFinishTimes | src/SchedulingPolicies/JobScheduling.java:161-175 | row i finishes at the carried clock after rows 0..i (start at max(clock, arrival), run the whole burst); only finish times change; the timeline is a valid schedule |
| FirstComeFirstServe.TimelineStep | src/SchedulingPolicies/JobScheduling.java:163-173 | one iteration adds one whole-burst slice, starting at the later of the clock and the arrival, that ends at the row's finish |
| FirstComeFirstServe.FcfsClockMonotone | src/SchedulingPolicies/JobScheduling.java:161-173 | finish times never decrease along the table |
| FirstComeFirstServe.FcfsFinishBounds | src/SchedulingPolicies/JobScheduling.java:165-172 | a row finishes at or after its arrival plus burst and at least one burst after the previous row |
| FirstComeFirstServe.FcfsNoIdle | src/SchedulingPolicies/JobScheduling.java:165-167 | without idle gaps the clock after k rows is the start plus the sum of their bursts |
| FirstComeFirstServe.FcfsIdleStart | src/SchedulingPolicies/JobScheduling.java:168-171 | after an idle gap a row starts exactly at its arrival and finishes one burst later |
| ShortJobFirst.SelectShortestJob | src/SchedulingPolicies/JobScheduling.java:89-101 | returns the table size exactly when no row is eligible; otherwise an eligible row with minimal burst, strictly below every earlier eligible row's burst |
| ShortJobFirst.RunSelected | src/SchedulingPolicies/JobScheduling.java:106-111 | the selected row finishes at clock + burst and is marked executed, and the clock moves to its finish |
| ShortJobFirst.DispatchStep | src/SchedulingPolicies/JobScheduling.java:95-111 | a dispatch keeps the loop state (only finish/executed change, one whole-burst slice per executed row, every dispatch shortest-first) and raises the executed count by one |
| ShortJobFirst.Dispatch | src/SchedulingPolicies/JobScheduling.java:106-111 | running the chosen row keeps the loop state, executes exactly one more row, and appends exactly its slice from the clock to the new clock |
| ShortJobFirst.IdleStep | src/SchedulingPolicies/JobScheduling.java:103-105 | when no unexecuted row has arrived, an idle tick of exactly 1 keeps the loop state, happens only before the last arrival, and the new clock is still an instant at which no arrived row waits |
| ShortJobFirst.InitialState | src/SchedulingPolicies/JobScheduling.java:86-87 | the loop starts from the arrival of the first row with an empty timeline |
| ShortJobFirst.Step | src/SchedulingPolicies/JobScheduling.java:88-112 | one iteration either executes one more row with one slice starting at the clock, or idles one tick, leaving the timeline alone, only when no unexecuted row has arrived; it keeps the loop state and the no-idle-while-waiting property |
| ShortJobFirst.FinalState | src/SchedulingPolicies/JobScheduling.java:92-93 | at loop exit every row is executed, only finish/executed changed, the timeline is valid with whole-burst slices, and every dispatch was shortest-first |
| ShortJobFirst.SjfFinishTimes | src/SchedulingPolicies/JobScheduling.java:85-114 | every row ends executed; only finish/executed change; the timeline is a valid schedule of whole-burst slices, every dispatch is a shortest-job-first choice, and the CPU never idles while an arrived row waits |
| Timeline.InitRemaining | src/SchedulingPolicies/JobScheduling.java:197-201 | the remaining times start as the bursts (the same loop is at lines 318-321 for SRTF) |
| RoundRobin.ArrivedPending | src/SchedulingPolicies/JobScheduling.java:203-207 | the queue is exactly the arrived, unexecuted rows, in index order |
| RoundRobin.Start | src/SchedulingPolicies/JobScheduling.java:194-208 | the clock starts at the first arrival, remaining times at the bursts, the wait queue holds the arrived rows, and both loop invariants and the no-idle-while-waiting property hold |
| RoundRobin.FirstUnexecuted | src/SchedulingPolicies/JobScheduling.java:213-219 | the index of the first unexecuted row, 0 when none remains |
| RoundRobin.EmptyQueueIdle | src/SchedulingPolicies/JobScheduling.java:212-220 | with both queues empty every unexecuted row arrives after the clock, so the jump moves the clock forward |
| RoundRobin.IdleRefill | src/SchedulingPolicies/JobScheduling.java:210-226 | the clock jumps forward to the first unexecuted row's arrival and the active queue becomes the non-empty set of arrived, unexecuted rows in index order; no unexecuted row, and no row with work left, arrived before the new clock (`RoundQueue`) |
| RoundRobin.RunTurn | src/SchedulingPolicies/JobScheduling.java:232-243 | with more than a quantum left the row runs one quantum and stays pending; otherwise it runs to the end, finishes at the new clock, is executed and leaves the wait queue |
| RoundRobin.RemoveFirst | src/SchedulingPolicies/JobScheduling.java:242 | `Queue.remove` leaves a queue that does not hold the value unchanged |
| RoundRobin.RemoveFirstDropsFirst | src/SchedulingPolicies/JobScheduling.java:242 | when the value is in the queue, `Queue.remove` drops exactly its first occurrence and keeps the rest in order |
| Timeline.TurnShortens | src/SchedulingPolicies/JobScheduling.java:232-239 | a turn takes exactly its length off the total remaining time |
| Timeline.TurnKeepsRows | src/SchedulingPolicies/JobScheduling.java:232-243 | after a turn the clock has advanced, only finish/executed changed, and a row is executed exactly when nothing of it remains |
| Timeline.TurnKeepsAccounts | src/SchedulingPolicies/JobScheduling.java:232-243 | the slices plus the remaining times still account for every burst |
| RoundRobin.TurnKeepsSlices | src/SchedulingPolicies/JobScheduling.java:232-243 | slices stay ordered, at most a quantum long, and a slice shorter than a quantum completes its row |
| Timeline.TurnKeepsFinished | src/SchedulingPolicies/JobScheduling.java:237-241 | an executed row finished at the end of its last slice |
| RoundRobin.TurnKeepsTimeline | src/SchedulingPolicies/JobScheduling.java:232-243 | a turn keeps the whole timeline invariant, lowers the total remaining time, and every executed row arrived by the turn's start |
| RoundRobin.RemainingNonNegative | src/SchedulingPolicies/JobScheduling.java:198-243 | the total remaining time never becomes negative |
| RoundRobin.ScanArrivals | src/SchedulingPolicies/JobScheduling.java:246-256 | the newcomers are exactly the unexecuted rows other than curr, arrived strictly before the clock and in neither queue, in index order; `temp` is exactly the rows arriving at the clock |
| RoundRobin.AppendAll | src/SchedulingPolicies/JobScheduling.java:259-262 | adding the elements one by one appends them in order |
| RoundRobin.QueuedBefore | src/SchedulingPolicies/JobScheduling.java:230-243 | the rows queued behind the head stay valid, unexecuted and arrived after its turn, differ from it and do not repeat |
| RoundRobin.TurnKeepsQueue | src/SchedulingPolicies/JobScheduling.java:244-262 | newcomers, then the pending row, then the rows arriving at the new clock form exactly the arrived, unexecuted rows, each once |
| RoundRobin.QueueHead | src/SchedulingPolicies/JobScheduling.java:230-231 | the queue head is a valid, arrived, unexecuted row that does not occur again |
| RoundRobin.Requeue | src/SchedulingPolicies/JobScheduling.java:244-262 | curr leaves the active queue and the wait queue gains newcomers, then curr if pending, then rows arriving at the clock; the queue invariant holds at the new clock |
| RoundRobin.TimedTurn | src/SchedulingPolicies/JobScheduling.java:231-243 | a turn appends its slice, lowers the total remaining time and keeps the timeline invariant |
| RoundRobin.TakeTurn | src/SchedulingPolicies/JobScheduling.java:229-262 | one turn of the queue head appends its slice from the old clock to the new one and lowers the total remaining time; the head leaves the active queue, and the new wait queue is the old one, then the newcomers that arrived before the new clock in index order, then the head if it still has work left, then the rows arriving at the new clock in index order (`Requeued`); both invariants hold at the new clock |
| RoundRobin.RoundStep | src/SchedulingPolicies/JobScheduling.java:230-262 | one pass of the for-each runs `active[idx]`, leaves `active[idx + 1..]` to run, grows the round by that row's slice starting at the clock, and keeps both invariants and the no-idle-while-waiting property |
| RoundRobin.RoundTurnsAppend | src/SchedulingPolicies/JobScheduling.java:230-262 | the slice of the next queued row, starting where the round so far ended, extends a round of n turns in queue order to n + 1 that ends where that slice ends |
| RoundRobin.RunRound | src/SchedulingPolicies/JobScheduling.java:226-263 | the for-each over the active queue appends exactly one slice per queued row, for that row and in queue order, the first at the round's start and each later one where the previous one ended, and the clock ends at the last slice's end (`RoundTurns`); it keeps both invariants, lowers the total remaining time, and keeps the CPU from idling while an arrived row has work left |
| RoundRobin.AnyUnexecuted | src/SchedulingPolicies/JobScheduling.java:265-272 | the flag is set exactly when some row is unexecuted |
| RoundRobin.ClockForward | src/SchedulingPolicies/JobScheduling.java:220 | moving the clock forward over a stretch without slices keeps the timeline invariant |
| RoundRobin.InitialTimeline | src/SchedulingPolicies/JobScheduling.java:197-207 | the initial state satisfies the timeline invariant |
| RoundRobin.Cycle | src/SchedulingPolicies/JobScheduling.java:209-274 | one outer pass runs the wait queue from the current clock, or after an idle jump the arrived rows from the next arrival (`RoundQueue`), one slice per queued row back to back (`RoundTurns`); it keeps both invariants and the no-idle-while-waiting property, strictly lowers the non-negative total remaining time, and reports whether a row is left |
| RoundRobin.Cycles | src/SchedulingPolicies/JobScheduling.java:209-274 | the outer loop ends with every row executed, the timeline invariant and the no-idle-while-waiting property |
| RoundRobin.FinalTimeline | src/SchedulingPolicies/JobScheduling.java:272-275 | once every row is executed the timeline is a valid schedule of turns of at most a quantum, a shorter turn ending its row, with no idle time while a row waits |
| RoundRobin.RrFinishTimes | src/SchedulingPolicies/JobScheduling.java:194-276 | every row ends executed; only finish/executed change; the timeline is valid, turns last at most a quantum, a shorter turn is its row's last, and the CPU never idles while an arrived row has work left |
| ShortestRemainingTimeFirst.SelectIncumbent | src/SchedulingPolicies/JobScheduling.java:330-346 | newP is set exactly when some row has arrived unexecuted; then the incumbent has minimal remaining time, strictly below every earlier candidate; otherwise the previous index is kept |
| ShortestRemainingTimeFirst.Selected | src/SchedulingPolicies/JobScheduling.java:330-346 | a chosen incumbent has arrived, the clock is past every slice, and every unexecuted row up to it has arrived |
| ShortestRemainingTimeFirst.Idle | src/SchedulingPolicies/JobScheduling.java:347-353 | when nothing has arrived some row is executed, `shortest + 1` stays inside the table, and the jump to its arrival is a consistent state |
| ShortestRemainingTimeFirst.UnexecutedWhenNoneCounted | src/SchedulingPolicies/JobScheduling.java:347 | with no executed row, every row is unexecuted |
| ShortestRemainingTimeFirst.Incumbent | src/SchedulingPolicies/JobScheduling.java:327-353 | with arrivals, the clock stays and the incumbent has minimal remaining time; without, the index moves to shortest + 1 and the clock to that row's arrival; an executed incumbent lies past the previous index |
| ShortestRemainingTimeFirst.IdleJumpSkipsShorterRow | src/SchedulingPolicies/JobScheduling.java:347-353 | in a reachable loop state where nothing has arrived, the jump lands on a row that another row arriving at the same instant beats on remaining time, and no row can preempt it, so the jumped-to row runs while a shorter one waits |
| ShortestRemainingTimeFirst.IncumbentRescanned | src/SchedulingPolicies/JobScheduling.java:327-353 | the corrected choice: after the idle jump the scan runs again at the new clock, so whenever some unexecuted row has arrived the incumbent has minimal remaining time |
| ShortestRemainingTimeFirst.ScanPreemption | src/SchedulingPolicies/JobScheduling.java:354-390 | preempt is set exactly when some row beats the incumbent, and the preemption time is the gap to the last such row in table order; otherwise it is 0 |
| ShortestRemainingTimeFirst.PreemptionShortens | src/SchedulingPolicies/JobScheduling.java:366-387 | a row that beats the incumbent arrives strictly after the clock and strictly inside the incumbent's remaining time |
| ShortestRemainingTimeFirst.PreemptionBounds | src/SchedulingPolicies/JobScheduling.java:366-387 | the preemption time the scan reports is positive and below the incumbent's remaining time |
| ShortestRemainingTimeFirst.Advance | src/SchedulingPolicies/JobScheduling.java:391-408 | an executed incumbent changes nothing; without preemption it finishes at clock + remaining and the count rises; with preemption the clock and remaining time move by the same amount |
| ShortestRemainingTimeFirst.RunIsTurn | src/SchedulingPolicies/JobScheduling.java:391-407 | the run of an unexecuted incumbent is a positive-length turn whose quantum is the run's length |
| ShortestRemainingTimeFirst.RunCount | src/SchedulingPolicies/JobScheduling.java:392-401 | the executed counter tracks the executed rows: it rises exactly when the incumbent runs to completion |
| ShortestRemainingTimeFirst.RunKeepsSlices | src/SchedulingPolicies/JobScheduling.java:396-406 | the run's slice starts after every earlier slice and after its row's arrival |
| ShortestRemainingTimeFirst.RunClock | src/SchedulingPolicies/JobScheduling.java:391-407 | after a run the clock is the furthest point reached and every unexecuted row up to the incumbent has arrived |
| ShortestRemainingTimeFirst.RunTimeline | src/SchedulingPolicies/JobScheduling.java:391-407 | a run keeps the timeline invariant and lowers the total remaining time, which stays non-negative |
| ShortestRemainingTimeFirst.SkipKeepsState | src/SchedulingPolicies/JobScheduling.java:391-408 | the iteration of an executed incumbent keeps the loop state, the count and the total remaining time |
| ShortestRemainingTimeFirst.RunKeepsState | src/SchedulingPolicies/JobScheduling.java:391-408 | the iteration of an unexecuted incumbent keeps the loop state and the count, and strictly lowers the non-negative total remaining time |
| ShortestRemainingTimeFirst.StepKeepsState | src/SchedulingPolicies/JobScheduling.java:327-410 | one iteration keeps the loop state and the count; the total remaining time falls unless the incumbent was already executed |
| ShortestRemainingTimeFirst.Decide | src/SchedulingPolicies/JobScheduling.java:327-390 | with arrivals the incumbent has minimal remaining time and starts at once; without, it is `shortest + 1` from its arrival; it is preempted exactly when some row beats it, until the last such row's arrival (`Decided`) |
| ShortestRemainingTimeFirst.BusyAt | src/SchedulingPolicies/JobScheduling.java:347-353 | an unexecuted incumbent starts where the last run ended, or after the idle jump, before which no row with work left had arrived |
| ShortestRemainingTimeFirst.StepNoIdle | src/SchedulingPolicies/JobScheduling.java:391-408 | a run from a busy instant keeps the CPU from idling while work waits and ends at a busy instant; a skipped executed incumbent adds nothing |
| ShortestRemainingTimeFirst.Iterate | src/SchedulingPolicies/JobScheduling.java:327-410 | one iteration takes the decision `Decided` states, then the clock moves by `RunLength`, the rows become `AfterRun`, the incumbent's remaining time drops by the run, and the timeline gains exactly the run's slice; the loop state and the no-idle property are kept; either the total remaining time falls or it stays and the incumbent index moves forward |
| ShortestRemainingTimeFirst.StartState | src/SchedulingPolicies/JobScheduling.java:318-326 | the initial clock, remaining times and counter satisfy the loop invariant |
| ShortestRemainingTimeFirst.FinalState | src/SchedulingPolicies/JobScheduling.java:327 | when the counter reaches the table size every row is executed, only finish/executed changed, and the timeline is valid with no idle time while a row waits |
| ShortestRemainingTimeFirst.SrtfFinishTimes | src/SchedulingPolicies/JobScheduling.java:317-412 | the loop terminates, every row ends executed, only finish/executed change, the timeline is a valid schedule, and the CPU never idles while an arrived row has work left |
| OutputLine.Digits | src/SchedulingPolicies/JobScheduling.java:516-519 | the decimal digits of a natural number: never empty, only digits, "0" for zero and no leading zero otherwise |
| OutputLine.DigitsRoundTrip | src/SchedulingPolicies/JobScheduling.java:516-519 | reading the digits of n gives n back |
| OutputLine.LongRoundTrip | src/SchedulingPolicies/JobScheduling.java:516-519 | reading a number as `Long.toString` renders it, with a minus sign when negative, gives the number back |
| OutputLine.NoSpace | src/SchedulingPolicies/JobScheduling.java:516-519 | a rendered number holds no space, so the separator is unambiguous |
| OutputLine.FieldsJoined | src/SchedulingPolicies/JobScheduling.java:516-519 | space-free fields joined by single spaces split back into the same fields |
| OutputLine.LineFields | src/SchedulingPolicies/JobScheduling.java:516-519 | an output line splits into exactly the renderings of pId, finish, wait and turnaround |
| OutputLine.LineRoundTrip | src/SchedulingPolicies/JobScheduling.java:516-519 | every output line reads back as exactly its row's pId, finish time, waiting time and turnaround, in that order |
| OutputLine.LineInjective | src/SchedulingPolicies/JobScheduling.java:516-519 | two rows with the same output line agree on all four numbers |
| Pipeline.SortedResetRunnable | src/SchedulingPolicies/JobScheduling.java:608-609 | a reset table sorted by arrival is non-empty, has positive bursts, has no executed row, and is unchanged by another reset |
| Pipeline.FinishTimes | src/SchedulingPolicies/JobScheduling.java:78 | the chosen policy's engine keeps its own promise (`EnginePromise`): a valid schedule, plus the FCFS clock for every finish time, or for SJF whole-burst shortest-first dispatches, for RR turns of at most a quantum with a shorter turn last, and for SJF, RR and SRTF no idle time while work waits and every row executed; only finish/executed change |
| Pipeline.PromiseKept | src/SchedulingPolicies/JobScheduling.java:186-189 | the turnaround and wait passes keep every engine's promise |
| Pipeline.ComputeMetrics | src/SchedulingPolicies/JobScheduling.java:186-189 | after a valid schedule the turnaround and wait passes make every row's turnaround finish − arrival ≥ burst and wait turnaround − burst ≥ 0, changing nothing else |
| Pipeline.Run | src/SchedulingPolicies/JobScheduling.java:585-631 | reset and sort give `ready`, a permutation of the reset input sorted by arrival; the result is `ready` with derived fields recomputed, the engine's promise holds of it from `ready`, and turnaround and wait are exact |
| Pipeline.SaveOutput | src/SchedulingPolicies/JobScheduling.java:508-520 | the table is re-sorted by pId in place and each row gives one output line, in that order, which reads back as its four numbers |
| Pipeline.RenderLines | src/SchedulingPolicies/JobScheduling.java:510-520 | the `process` buffer holds row i's line at index i, and each line reads back as that row's four numbers |
| Pipeline.ConsistentPermuted | src/SchedulingPolicies/JobScheduling.java:509 | reordering the table by pId keeps every row's turnaround and wait exact |
| Pipeline.ClearedAllPermuted | src/SchedulingPolicies/JobScheduling.java:509 | two tables that are permutations of each other remain permutations after reset |
| Pipeline.Schedule | src/SchedulingPolicies/JobScheduling.java:585-631 | one output line per input process in ascending pId, each reading back as its row's numbers; the table is a reordering of the input with exact turnaround and wait; the run started from the reset input sorted by arrival and kept the policy's promise (`EnginePromise`) |

## Left out

- Reading the workload file (`getProcesses`), writing the result file (`Files.write` in `saveOutputFile`), `main` and its exception printing: file I/O. The workload is a given array, and the output is the sequence of lines `saveOutputFile` would write. The UTF-8 encoding and the line separators `Files.write` adds are not modelled.
- The string-keyed dispatch in `scheduleProcesses`, including the "All" choice that runs the four policies in turn: `Pipeline.Schedule` models one branch. In "All" mode each run starts from the previous run's pId-sorted table, and because the arrival sort is stable, rows that arrive together then reach the engine in pId order. The model does not chain runs.
- The debug prints for pId 27 inside the SRTF engine: output only.
- Java `long` arithmetic: all times are unbounded integers, so overflow is not modelled.
- The reader in `output.dfy` (`ReadLong`, `ParseLine`) is the model's own partner to the writer; the source reads no output file. It accepts only an optional minus sign and digits, which covers everything `Long.toString` writes.
- `Process` objects and aliasing: rows are values in an array. Nothing else refers to a row, so field updates through an array element are the same as replacing the element.
- The `Scheduler` base class, the `ProcessDetail` wrapper and `AlgorithmName`: no behaviour. The table size is the array length, and the quantum is a parameter.
- Dead code is not written out. This covers:
  - SRTF: the `else if` at line 382, which `fIn` makes unreachable, the clamp of a negative `exeTime` (lines 371-373), which cannot fire because the row arrives after the clock, and the unused `next`;
  - the arrival sort's tie branch at lines 449-455, which never swaps.
- RoundRobin.RrFinishTimes: requires a quantum above 0. With a quantum of 0 or less the source loops forever: a turn never shortens the remaining time.
- ShortJobFirst.SjfFinishTimes, RoundRobin.RrFinishTimes, ShortestRemainingTimeFirst.SrtfFinishTimes: these require a non-empty table, sorted by arrival, with positive bursts and nothing executed, as the pipeline hands it over.
  - An empty table makes every engine read `processArray[0]` and fail.
  - Zero-length bursts would make zero-length slices, which the timeline does not represent.
- FirstComeFirstServe.FcfsFinishTimes: requires a non-empty table, sorted by arrival, with positive bursts, for the same reasons. It does not require that nothing is executed, because the FCFS engine never reads `executed`.
- Pipeline.Run, Pipeline.Schedule: require positive bursts and a non-empty table for the same reasons, and a positive quantum for Round Robin.
- FirstComeFirstServe.FcfsFinishTimes: the FCFS engine never sets `executed`, and the model keeps that. Its contract states the finish times and the schedule, not an all-executed table.
- ShortestRemainingTimeFirst.SrtfFinishTimes: states a valid schedule without idle waiting. It does not state that every dispatch had minimal remaining time, because the source does not keep that after the idle jump (see Findings). Each iteration's choice is stated by SelectIncumbent, Incumbent and ScanPreemption.
- RoundRobin.RrFinishTimes: the whole-run contract does not state the queue order of the turns. That order is stated in parts:
  - Requeue and TakeTurn state how each turn rebuilds the wait queue (`Requeued`);
  - RunRound states that a round gives one slice to each row of the active queue, in queue order, back to back (`RoundTurns`);
  - Cycle states which queue a round runs and from when (`RoundQueue`).
- RoundRobin.RunRound: does not state the order of the whole wait queue after a round as one formula. TakeTurn states each turn's part of it.

## Findings

| source | as written | input that shows it | evidently intended | confidence | as-written member | corrected member |
|---|---|---|---|---|---|---|
| src/SchedulingPolicies/JobScheduling.java:450 | the tie branch compares `processArray[j].pId` with itself, so rows that arrive together are never reordered by pId | rows (pId 2, arrival 0) and (pId 1, arrival 0), in that order: the sort leaves pId 2 first | compare with `processArray[j+1].pId`: ascending pId among rows with equal arrival | high (not executed) | Sorting.ArrivalTieKeepsInputOrder | Sorting.SortProcessByArrivalThenPid |
| src/SchedulingPolicies/JobScheduling.java:347-353 | after an idle stretch the engine sets `shortest` to `shortest + 1` and runs that row from its arrival without scanning again | rows (pId 1, arrival 0, burst 1), (pId 2, arrival 10, burst 8), (pId 3, arrival 10, burst 2): pId 2 runs from 10 to 18 while pId 3, with 2 left, waits | scan again at the new clock, so the row with the least remaining time runs | high (not executed) | ShortestRemainingTimeFirst.IdleJumpSkipsShorterRow | ShortestRemainingTimeFirst.IncumbentRescanned |

The pipeline keeps the as-written arrival sort, because it models what
`scheduleProcesses` does. The corrected sort has the same arrival-order and
permutation guarantees, so every property proved about `Pipeline.Run` also
holds with it. For the same reason the SRTF engine keeps the as-written
idle jump. `IncumbentRescanned` is the corrected choice with the
minimality proved, and it is not wired into the engine.
