/** `minimize_max_lateness`: sort the tasks by deadline (stably), run them back
    to back from time 0, and keep the running maximum of their lateness. */
module Scheduler {
  import opened Tasks
  import opened StableSort
  import opened Timeline
  import opened Optimality

  /** What the schedule of the Earliest-Deadline-First order promises. */
  lemma EdfScheduleFacts(tasks: seq<Task>)
    ensures var schedule := Simulate(SortByDeadline(tasks));
      // One entry per task, gap-free from time 0, with exact finish and lateness.
      && IsTimeline(Recover(schedule), schedule)
      // The scheduled tasks are the input tasks, by non-decreasing deadline, ties in input order.
      && multiset(Recover(schedule)) == multiset(tasks)
      && SortedByDeadline(Recover(schedule))
      && (forall d :: WithDeadline(Recover(schedule), d) == WithDeadline(tasks, d))
      // The maximum is attained when there is any task.
      && (tasks != [] ==> exists i :: 0 <= i < |schedule| && schedule[i].lateness == MaxLateness(schedule))
      // The last entry finishes at the sum of all processing times.
      && (tasks != [] ==> schedule[|schedule| - 1].finish == Total(tasks))
  {
    var order := SortByDeadline(tasks);
    RecoverSimulate(order);
    SimulateIsTimeline(order);
    SortIsSorted(tasks);
    forall d
      ensures WithDeadline(order, d) == WithDeadline(tasks, d)
    {
      SortIsStable(tasks, d);
    }
    if tasks != [] {
      MaxLatenessAttained(order);
      Makespan(order);
      TotalPermutation(order, tasks);
    }
  }

  /** The loop's arithmetic builds exactly the entry of the task at its start time. */
  lemma EntryIs(t: Task, start: int, finish: int, lateness: int)
    requires finish == start + t.procTime && lateness == Max(0, finish - t.deadline)
    ensures Entry(t.name, start, finish, t.deadline, lateness) == EntryAt(t, start)
  {
  }

  /** One iteration of the loop keeps its invariant. */
  lemma LoopStep(order: seq<Task>, i: nat, schedule: seq<Entry>, start: int, entry: Entry)
    requires i < |order| && schedule == Simulate(order[..i]) && start == Total(order[..i])
    requires entry == EntryAt(order[i], start)
    ensures start + order[i].procTime == Total(order[..i + 1])
    ensures schedule + [entry] == Simulate(order[..i + 1])
    ensures MaxLateness(schedule + [entry]) == Max(MaxLateness(schedule), entry.lateness)
  {
    SimulateStep(order, i);
    MaxLatenessStep(schedule, entry);
    TotalStep(order, i);
  }

  /** The loop of `minimize_max_lateness`: run `order` back to back from time 0,
      appending each entry and keeping the running maximum of lateness. */
  method RunInOrder(order: seq<Task>) returns (schedule: seq<Entry>, maxLateness: int)
    ensures schedule == Simulate(order)
    ensures maxLateness == MaxLateness(schedule)
  {
    var currentTime := 0;
    schedule := [];
    maxLateness := 0;
    for i := 0 to |order|
      invariant currentTime == Total(order[..i])
      invariant schedule == Simulate(order[..i])
      invariant maxLateness == MaxLateness(schedule)
    {
      var t := order[i];
      var start := currentTime;
      var finish := start + t.procTime;
      var lateness := Max(0, finish - t.deadline);
      maxLateness := Max(maxLateness, lateness);
      EntryIs(t, start, finish, lateness);
      var entry := Entry(t.name, start, finish, t.deadline, lateness);
      LoopStep(order, i, schedule, start, entry);
      schedule := schedule + [entry];
      currentTime := finish;
    }
    assert order[..|order|] == order;
  }

  method MinimizeMaxLateness(tasks: seq<Task>) returns (schedule: seq<Entry>, maxLateness: int)
    // The schedule is the timeline of the stable deadline order, and the metric its maximum lateness.
    ensures schedule == Simulate(SortByDeadline(tasks))
    ensures maxLateness == MaxLateness(schedule)
    ensures IsTimeline(Recover(schedule), schedule)
    ensures multiset(Recover(schedule)) == multiset(tasks)
    ensures SortedByDeadline(Recover(schedule))
    ensures forall d :: WithDeadline(Recover(schedule), d) == WithDeadline(tasks, d)
    // The metric is a true maximum, and 0 for the empty input.
    ensures maxLateness >= 0
    ensures forall i :: 0 <= i < |schedule| ==> schedule[i].lateness <= maxLateness
    ensures tasks != [] ==> exists i :: 0 <= i < |schedule| && schedule[i].lateness == maxLateness
    ensures tasks == [] ==> schedule == [] && maxLateness == 0
    ensures tasks != [] ==> schedule[|schedule| - 1].finish == Total(tasks)
  {
    // `sorted` builds a new list; the caller's sequence is never touched.
    var sorted := new Task[|tasks|](i requires 0 <= i < |tasks| => tasks[i]);
    assert sorted[..] == tasks;
    SortInPlace(sorted);
    schedule, maxLateness := RunInOrder(sorted[..]);
    EdfScheduleFacts(tasks);
  }
}
