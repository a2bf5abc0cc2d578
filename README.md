# Greedy task scheduler: a verified model of `minimize_max_lateness`

The repository is a small dashboard. It schedules tasks on a single machine with
the Earliest-Deadline-First (EDF) rule, and reports each task's start, finish and
lateness plus the maximum lateness. Its only algorithmic part is
`minimize_max_lateness`, and that is what this project models and proves things about:

1. Copy the `(name, proc_time, deadline)` tuples and sort the copy by deadline. Python's
   `sorted` is stable, so tasks due at the same time keep their input order.
2. Run the sorted tasks back to back from time 0. Each task starts when the previous one
   finishes, and its lateness is `max(0, finish - deadline)`.
3. Keep the running maximum of the lateness, starting from 0.
4. Return the list of `(name, start, finish, deadline, lateness)` tuples and that maximum.

Modules:

- `Tasks` (`tasks.dfy`) holds the records.
  - `Task` is an input tuple and `Entry` an output tuple.
  - `Total` is the sum of processing times, and some facts about it. One of them is that
    `Total` depends only on the multiset of tasks.
- `StableSort` (`stable_sort.dfy`) models `sorted`.
  - `SortByDeadline` is the reference definition: a functional insertion sort.
  - `SortInPlace` is an in-place insertion sort on a fresh array, proved equal to the
    reference definition.
  - `SortedByDeadline` states that deadlines do not decrease.
  - Stability is stated with `WithDeadline(s, d)`, the subsequence of `s` due at `d`.
  - A uniqueness lemma shows that a sorted order with each `WithDeadline` unchanged is exactly
    `SortByDeadline`. So the two properties pin down what Python's `sorted` returns.
- `Timeline` (`timeline.dfy`) models the back-to-back run.
  - `Simulate` runs a given order. `MaxLateness` is the running maximum.
  - `IsTimeline` is the contract a schedule must meet, and `Recover` reads a schedule back as
    the tasks it ran.
- `Optimality` (`optimality.dfy`) proves the design claim behind EDF: with non-negative
  processing times, no permutation of the tasks has a smaller maximum lateness. It also proves
  the adjacent-swap exchange step.
- `Scheduler` (`scheduler.dfy`) is `minimize_max_lateness` itself.
  - `RunInOrder` is its `for` loop. It updates `currentTime` and `maxLateness` and appends to
    `schedule`, and is proved equal to `Simulate` and `MaxLateness`.
  - `MinimizeMaxLateness` calls the sort and then the loop, and states the whole contract.
- `Scenarios` (`scenarios.dfy`) checks three worked examples against the reference definitions.

Times are unbounded integers, like Python's `int`. The source checks nothing about its
input, and the model adds no `requires` to the operation. Two consequences:

- An empty task list gives `([], 0)`.
- Zero or negative processing times are processed as written.

The code raises no errors for empty input or for non-positive processing times, and this
model raises none either. The manual entry form passes processing times of at least 1
(`number_input(min_value=1)`, greedy_scheduler.py:76). The CSV path (greedy_scheduler.py:84-89)
passes whatever the file holds, so zero, negative or fractional times can reach the scheduler.
The optimality results hold only for non-negative times, and `NonNegative` is their
precondition: with a negative processing time a later-deadline task can be better run first.

## Model

| member | source | states |
|---|---|---|
| Scheduler.MinimizeMaxLateness | greedy_scheduler.py:13-25 | The schedule is the entry-by-entry timeline of the stable deadline order of the input, and the metric is its maximum lateness. The schedule is gap-free from 0 with exact finish and lateness; the scheduled tasks are a permutation of the input, sorted by deadline with ties in input order; the metric is an upper bound attained by some entry, and `([], 0)` for no tasks. The last entry finishes at the sum of all processing times. |
| Scheduler.RunInOrder | greedy_scheduler.py:15-24 | The loop over a given order produces exactly `Simulate(order)` and the running maximum `MaxLateness` of it. |
| Scheduler.LoopStep | greedy_scheduler.py:19-24 | One iteration advances the clock to the next prefix total, appends the next simulated entry, and raises the maximum to that entry's lateness if it is larger. |
| Scheduler.EntryIs | greedy_scheduler.py:19-23 | The loop's arithmetic for `start`, `finish` and `lateness` yields the entry that `EntryAt` defines. |
| Scheduler.EdfScheduleFacts | greedy_scheduler.py:13-25 | For the simulated stable deadline order: it is a timeline of the tasks it recovers; they are a permutation of the input, sorted, with each per-deadline subsequence unchanged; the maximum is attained; the last finish is the total processing time. |
| StableSort.SortInPlace | greedy_scheduler.py:14 | The in-place insertion sort leaves the array equal to `SortByDeadline` of its old contents. |
| StableSort.InsertInPlace | greedy_scheduler.py:14 | Inserting `a[i]` into the prefix `a[..i]` yields `Insert` of the two, and leaves the rest of the array unchanged. |
| StableSort.OpenGap | greedy_scheduler.py:14 | The shifting loop returns the insertion index `j <= i`: the task just before it (if any) is due no later than `a[i]`, every task from `j` up to `i - 1` is due strictly later and moves one place right, and everything before `j` and after `i` is unchanged. |
| StableSort.SortByDeadline | greedy_scheduler.py:14 | The sorted sequence is a permutation of the input (same multiset, same length). |
| StableSort.Insert | greedy_scheduler.py:14 | Inserting adds exactly one copy of the task. |
| StableSort.SortIsSorted | greedy_scheduler.py:14 | The result has non-decreasing deadlines. |
| StableSort.SortIsStable | greedy_scheduler.py:14 | For every deadline, the tasks due at it appear in the result in their input order. |
| StableSort.StableSortUnique | greedy_scheduler.py:14 | Any deadline-sorted sequence that keeps every per-deadline subsequence of the input is `SortByDeadline` of it, so sortedness plus stability determine the order completely. |
| StableSort.SortedAgreeingEqual | greedy_scheduler.py:14 | Two deadline-sorted sequences with equal per-deadline subsequences are equal. |
| StableSort.SortIdempotent | greedy_scheduler.py:14 | Sorting an already sorted result changes nothing. |
| StableSort.InsertSorted | greedy_scheduler.py:14 | Inserting into a sorted sequence keeps it sorted. |
| StableSort.InsertKeepsOrder | greedy_scheduler.py:14 | The inserted task goes after every task with the same deadline. |
| StableSort.InsertPosition | greedy_scheduler.py:14 | `Insert` places the task right after the last one due no later than it. |
| StableSort.WithDeadlineMembers | greedy_scheduler.py:14 | A task is in the per-deadline subsequence exactly when it is in the sequence and has that deadline. |
| Timeline.EntryAt | greedy_scheduler.py:19-23 | An entry copies name and deadline, lasts the processing time, and its lateness is 0 or `finish - deadline`, never below either. |
| Timeline.MaxLateness | greedy_scheduler.py:17-22 | The running maximum from 0 is non-negative and bounds every entry's lateness, and it is 0 or equal to some entry's lateness. |
| Timeline.Simulate | greedy_scheduler.py:15-24 | The functional model of the loop: one entry per task in order. Its own contract gives the length; what each entry is follows from `Timeline.SimulateAt`, `Timeline.SimulateIsTimeline` and `Timeline.TimelineUnique`. |
| Timeline.SimulateAt | greedy_scheduler.py:18-21 | The `i`-th entry of the run starts at the total processing time of the tasks before it. |
| Timeline.FinishAt | greedy_scheduler.py:20-24 | The `i`-th entry finishes at the total processing time of the first `i + 1` tasks. |
| Timeline.SimulateIsTimeline | greedy_scheduler.py:15-24 | The run is a timeline of its order: names and deadlines copied, first start 0, each next start equal to the previous finish, exact finish and lateness. |
| Timeline.NextStartsAtFinish | greedy_scheduler.py:19-24 | No gap and no overlap: each next entry starts when the previous one finishes. |
| Timeline.TimelineUnique | greedy_scheduler.py:15-24 | The timeline of an order is unique: any sequence satisfying the timeline contract is the run. |
| Timeline.RecoverSimulate | greedy_scheduler.py:18-23 | Reading the schedule back gives exactly the order it was built from (each entry's name, `finish - start`, deadline). |
| Timeline.Makespan | greedy_scheduler.py:15-24 | The last entry finishes at the sum of all processing times. |
| Timeline.WithinMakespan | greedy_scheduler.py:15-24 | With non-negative processing times, every entry lies between 0 and the sum of all processing times. |
| Timeline.MaxLatenessAttained | greedy_scheduler.py:17-22 | On a non-empty schedule the maximum lateness equals some entry's lateness. |
| Timeline.MaxLatenessStep | greedy_scheduler.py:22 | One more entry changes the maximum to the larger of the old maximum and its lateness. |
| Timeline.LatenessMonotone | greedy_scheduler.py:20-21 | Finishing no earlier, against a deadline no later, never decreases lateness. |
| Optimality.EdfIsOptimal | greedy_scheduler.py:13-14 | With non-negative processing times, the maximum lateness of the deadline-sorted order is at most that of every permutation of the tasks. |
| Optimality.SortedOrderOptimal | greedy_scheduler.py:13-14 | Every deadline-sorted order, whatever its tie order, is no worse than any permutation of its tasks. |
| Optimality.ExchangeNoWorse | greedy_scheduler.py:18-22 | Swapping two adjacent tasks that are out of deadline order does not increase the maximum lateness. |
| Optimality.RemoveNoWorse | greedy_scheduler.py:18-22 | Dropping one task from an order does not increase the maximum lateness. |
| Optimality.LastNoBetter | greedy_scheduler.py:18-22 | The lateness of the sorted order's last task is at most the maximum lateness of any permutation of the same tasks (whose last task finishes at the same total against a deadline no later). |
| Optimality.Objective | greedy_scheduler.py:22-25 | The objective is non-negative and bounds the lateness of every entry of the run. |
| Tasks.Total | greedy_scheduler.py:15-24 | The value of `current_time` after a prefix of tasks: the sum of their processing times, never negative when no processing time is. |
| Tasks.TotalPermutation | greedy_scheduler.py:15-24 | The total processing time, and so the last finish, depends only on which tasks there are, not on their order. |
| Tasks.TotalRemove | greedy_scheduler.py:20-24 | Taking a task out subtracts its processing time from the total. |
| Tasks.PrefixTotalBound | greedy_scheduler.py:20-24 | With non-negative processing times, no prefix takes longer than the whole. |
| Scenarios.ThreeTasks | greedy_scheduler.py:13-25 | Tasks due at 5, 3, 2 with processing times 3, 2, 1 are run in the reverse order, finishing at 1, 3, 6; only the first input task is late, by 1, and that is the maximum. |
| Scenarios.OnlyTask | greedy_scheduler.py:13-25 | A single task of length 5 due at 2 runs from 0 to 5 and is late by 3. |
| Scenarios.EqualDeadlines | greedy_scheduler.py:13-25 | Two tasks due at 10 keep their input order, run 0-2 and 2-5, and neither is late. |

## Left out

- The Streamlit page (greedy_scheduler.py:1-10 and 47-131) is I/O and presentation. That
  covers the header, the form inputs, the CSV upload, the tabs and the metrics.
- `plot_gantt_chart` (greedy_scheduler.py:28-45) is rendering only.
- CSV loading through pandas (greedy_scheduler.py:82-95) is left out. It can hand the scheduler
  floating-point or non-numeric values; the model uses integer times only, and floating point
  is not modelled.
- Error types for empty input or invalid processing times are left out because the code has
  none.
  - The empty list yields `([], 0)`, which `MinimizeMaxLateness` states.
  - Non-positive processing times are processed as written. Only the optimality and
    within-makespan lemmas require them to be non-negative.
- The caller's list is not mutated. This holds by construction: sequences are values, and the
  in-place sort works on a fresh array, as `sorted` copies its input. No separate lemma states
  it.
- Python's `sorted` is Timsort. The model uses a stable insertion sort, and
  `StableSort.StableSortUnique` shows that any stable sort by deadline yields the same sequence.
- Concurrency and timing are not modelled: the operation is a single synchronous call.
