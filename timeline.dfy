/** Back-to-back execution of tasks in a given order from time 0, and the
    maximum lateness of the resulting timeline. */
module Timeline {
  import opened Tasks

  /** The entry of `t` when it starts at `start`: it finishes `procTime` later,
      and is late by how much its finish exceeds its deadline, or 0. */
  function EntryAt(t: Task, start: int): (e: Entry)
    ensures e.name == t.name && e.deadline == t.deadline && e.start == start
    ensures e.finish - e.start == t.procTime
    ensures e.lateness >= 0 && e.lateness >= e.finish - e.deadline
    ensures e.lateness == 0 || e.lateness == e.finish - e.deadline
  {
    var finish := start + t.procTime;
    Entry(t.name, start, finish, t.deadline, Max(0, finish - t.deadline))
  }

  /** Running the tasks of `order` one after the other, the first at time 0:
      each task starts when everything before it has been processed. */
  function Simulate(order: seq<Task>): (r: seq<Entry>)
    ensures |r| == |order|
  {
    if order == [] then []
    else Simulate(order[..|order| - 1]) + [EntryAt(order[|order| - 1], Total(order[..|order| - 1]))]
  }

  /** Reads a timeline back as the tasks it ran: the name, the time the entry
      occupies the machine, and the deadline. */
  function Recover(es: seq<Entry>): seq<Task>
  {
    if es == [] then []
    else
      var e := es[|es| - 1];
      Recover(es[..|es| - 1]) + [Task(e.name, e.finish - e.start, e.deadline)]
  }

  /** The timeline contract: one entry per task, in the same order, names and
      deadlines copied, the first starting at 0, each next one starting when the
      previous one finishes, each lasting its processing time, and each late by
      `max(0, finish - deadline)`. */
  ghost predicate IsTimeline(order: seq<Task>, es: seq<Entry>)
  {
    && |es| == |order|
    && (forall i :: 0 <= i < |es| ==>
          && es[i].name == order[i].name
          && es[i].deadline == order[i].deadline
          && es[i].finish == es[i].start + order[i].procTime
          && es[i].lateness == Max(0, es[i].finish - es[i].deadline))
    && (|es| > 0 ==> es[0].start == 0)
    && (forall i :: 0 <= i < |es| - 1 ==> es[i + 1].start == es[i].finish)
  }

  /** The largest lateness in `es`, or 0 when there is none: the running maximum
      of the loop, started at 0. */
  function MaxLateness(es: seq<Entry>): (m: int)
    ensures m >= 0
    ensures forall i :: 0 <= i < |es| ==> es[i].lateness <= m
    ensures m == 0 || exists i :: 0 <= i < |es| && es[i].lateness == m
  {
    if es == [] then 0
    else Max(MaxLateness(es[..|es| - 1]), es[|es| - 1].lateness)
  }

  /** Running one more task appends its entry, starting when the others are done. */
  lemma SimulateStep(order: seq<Task>, i: nat)
    requires i < |order|
    ensures Simulate(order[..i + 1]) == Simulate(order[..i]) + [EntryAt(order[i], Total(order[..i]))]
  {
    assert order[..i + 1][..i] == order[..i];
  }

  /** The running maximum: one more entry raises the maximum to its lateness, if larger. */
  lemma MaxLatenessStep(es: seq<Entry>, e: Entry)
    ensures MaxLateness(es + [e]) == Max(MaxLateness(es), e.lateness)
  {
    assert (es + [e])[..|es|] == es;
  }

  /** The entry of the `i`-th task starts at the total processing time of the tasks before it. */
  lemma {:induction false} SimulateAt(order: seq<Task>, i: nat)
    requires i < |order|
    ensures Simulate(order)[i] == EntryAt(order[i], Total(order[..i]))
  {
    var n := |order| - 1;
    if i < n {
      SimulateAt(order[..n], i);
      assert order[..n][..i] == order[..i];
    }
  }

  /** The `i`-th entry finishes at the total processing time of the first `i + 1` tasks. */
  lemma FinishAt(order: seq<Task>, i: nat)
    requires i < |order|
    ensures Simulate(order)[i].finish == Total(order[..i + 1])
  {
    SimulateAt(order, i);
    TotalStep(order, i);
  }

  /** Simulate yields a gap-free, non-overlapping timeline with exact lateness. */
  lemma SimulateIsTimeline(order: seq<Task>)
    ensures IsTimeline(order, Simulate(order))
  {
    var es := Simulate(order);
    forall i | 0 <= i < |es|
      ensures es[i].name == order[i].name && es[i].deadline == order[i].deadline
      ensures es[i].finish == es[i].start + order[i].procTime
      ensures es[i].lateness == Max(0, es[i].finish - es[i].deadline)
    {
      SimulateAt(order, i);
    }
    if |es| > 0 {
      SimulateAt(order, 0);
    }
    forall i | 0 <= i < |es| - 1
      ensures es[i + 1].start == es[i].finish
    {
      NextStartsAtFinish(order, i);
    }
  }

  /** Each next entry starts when the previous one finishes. */
  lemma NextStartsAtFinish(order: seq<Task>, i: nat)
    requires i + 1 < |order|
    ensures Simulate(order)[i + 1].start == Simulate(order)[i].finish
  {
    SimulateAt(order, i + 1);
    FinishAt(order, i);
  }

  /** Reading the timeline back gives exactly the order it was built from. */
  lemma {:induction false} RecoverSimulate(order: seq<Task>)
    ensures Recover(Simulate(order)) == order
  {
    if order != [] {
      var n := |order| - 1;
      assert Simulate(order)[..n] == Simulate(order[..n]);
      RecoverSimulate(order[..n]);
      assert order == order[..n] + [order[n]];
    }
  }

  /** There is only one timeline for a given order: the one Simulate builds. */
  lemma TimelineUnique(order: seq<Task>, es: seq<Entry>)
    requires IsTimeline(order, es)
    ensures es == Simulate(order)
  {
    SimulateIsTimeline(order);
    var sim := Simulate(order);
    forall i | 0 <= i < |es|
      ensures es[i] == sim[i]
    {
      SameStart(order, es, sim, i);
    }
  }

  lemma {:induction false} SameStart(order: seq<Task>, es: seq<Entry>, fs: seq<Entry>, i: nat)
    requires IsTimeline(order, es) && IsTimeline(order, fs) && i < |es|
    ensures es[i] == fs[i]
  {
    if i > 0 {
      SameStart(order, es, fs, i - 1);
      assert es[i].start == es[i - 1].finish;
      assert fs[i].start == fs[i - 1].finish;
    }
  }

  /** The last entry finishes at the total processing time (the "Total Time" shown). */
  lemma Makespan(order: seq<Task>)
    requires order != []
    ensures Simulate(order)[|order| - 1].finish == Total(order)
  {
    FinishAt(order, |order| - 1);
    assert order[..|order|] == order;
  }

  /** With non-negative processing times every entry lies within [0, Total(order)]. */
  lemma WithinMakespan(order: seq<Task>, i: nat)
    requires i < |order| && NonNegative(order)
    ensures 0 <= Simulate(order)[i].start <= Simulate(order)[i].finish <= Total(order)
  {
    SimulateAt(order, i);
    FinishAt(order, i);
    assert NonNegative(order[..i]);
    PrefixTotalBound(order, i + 1);
  }

  /** On a non-empty timeline the maximum lateness is attained by some entry. */
  lemma MaxLatenessAttained(order: seq<Task>)
    requires order != []
    ensures exists i :: 0 <= i < |order| && Simulate(order)[i].lateness == MaxLateness(Simulate(order))
  {
    var es := Simulate(order);
    if MaxLateness(es) == 0 {
      SimulateAt(order, 0);
      assert es[0].lateness == 0;
    }
  }

  /** Lateness is monotone: a task that finishes no earlier, against a deadline no
      later, is at least as late. */
  lemma LatenessMonotone(t1: Task, start1: int, t2: Task, start2: int)
    requires start1 + t1.procTime <= start2 + t2.procTime && t1.deadline >= t2.deadline
    ensures EntryAt(t1, start1).lateness <= EntryAt(t2, start2).lateness
  {
  }

  /** A bound on every entry's lateness bounds the maximum. */
  lemma MaxLatenessLeast(es: seq<Entry>, b: int)
    requires b >= 0 && forall i :: 0 <= i < |es| ==> es[i].lateness <= b
    ensures MaxLateness(es) <= b
  {
  }
}
