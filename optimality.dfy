/** Why Earliest-Deadline-First minimises the maximum lateness: with
    non-negative processing times, no order of the same tasks does better than
    a deadline-sorted one. */
module Optimality {
  import opened Tasks
  import opened StableSort
  import opened Timeline

  /** The objective: the maximum lateness of running the tasks in this order. */
  function Objective(order: seq<Task>): (m: int)
    ensures m >= 0
    ensures forall i :: 0 <= i < |order| ==> Simulate(order)[i].lateness <= m
  {
    MaxLateness(Simulate(order))
  }

  /** After a task is taken out, every later task starts no later than before. */
  lemma RemovalStartsEarlier(p: seq<Task>, k: nat, j: nat)
    requires k <= j < |p| - 1 && NonNegative(p)
    ensures Total((p[..k] + p[k + 1..])[..j]) <= Total(p[..j + 1])
  {
    var q := p[..k] + p[k + 1..];
    assert q[..j] == p[..k] + p[k + 1..j + 1];
    assert p[..j + 1] == p[..k + 1] + p[k + 1..j + 1];
    TotalAppend(p[..k], p[k + 1..j + 1]);
    TotalAppend(p[..k + 1], p[k + 1..j + 1]);
    TotalStep(p, k);
  }

  /** Taking one task out of an order, the others keeping their relative order,
      does not increase the maximum lateness: the tasks after it only start earlier. */
  lemma RemoveNoWorse(p: seq<Task>, k: nat)
    requires k < |p| && NonNegative(p)
    ensures Objective(p[..k] + p[k + 1..]) <= Objective(p)
  {
    var q := p[..k] + p[k + 1..];
    forall j | 0 <= j < |q|
      ensures Simulate(q)[j].lateness <= Objective(p)
    {
      SimulateAt(q, j);
      if j < k {
        assert q[..j] == p[..j];
        SimulateAt(p, j);
      } else {
        RemovalStartsEarlier(p, k, j);
        SimulateAt(p, j + 1);
        LatenessMonotone(p[j + 1], Total(q[..j]), p[j + 1], Total(p[..j + 1]));
      }
    }
    MaxLatenessLeast(Simulate(q), Objective(p));
  }

  /** The objective of an order is the larger of its prefix's and its last entry's lateness. */
  lemma ObjectiveLast(s: seq<Task>)
    requires s != []
    ensures Objective(s) == Max(Objective(s[..|s| - 1]), EntryAt(s[|s| - 1], Total(s[..|s| - 1])).lateness)
  {
    var n := |s| - 1;
    assert Simulate(s)[..n] == Simulate(s[..n]);
  }

  /** Whatever task a permutation runs last finishes at the same total time as the
      last task of a deadline-sorted order, against a deadline no later, so it is at
      least as late. */
  lemma LastNoBetter(s: seq<Task>, p: seq<Task>)
    requires SortedByDeadline(s) && multiset(s) == multiset(p) && s != []
    ensures |p| == |s|
    ensures EntryAt(s[|s| - 1], Total(s[..|s| - 1])).lateness <= Objective(p)
  {
    var n := |s| - 1;
    assert |p| == |multiset(p)| == |multiset(s)| == |s|;
    var x, y := s[n], p[n];
    assert y in multiset(s);
    LastIsLatest(s, y);
    TotalPermutation(s, p);
    TotalStep(s, n);
    TotalStep(p, n);
    assert s[..n + 1] == s && p[..n + 1] == p;
    SimulateAt(p, n);
    LatenessMonotone(x, Total(s[..n]), y, Total(p[..n]));
  }

  /** Taking the last task of `s` out of its permutation `p` leaves a permutation of the rest. */
  lemma RemoveFromPermutation(s: seq<Task>, p: seq<Task>, k: nat)
    requires s != [] && multiset(s) == multiset(p) && k < |p| && p[k] == s[|s| - 1]
    requires NonNegative(p)
    ensures multiset(p[..k] + p[k + 1..]) == multiset(s[..|s| - 1])
    ensures NonNegative(p[..k] + p[k + 1..])
  {
    MultisetRemove(p, k);
    MultisetDropLast(s);
    var q := p[..k] + p[k + 1..];
    forall j | 0 <= j < |q|
      ensures q[j].procTime >= 0
    {
      assert q[j] == if j < k then p[j] else p[j + 1];
    }
  }

  /** Any deadline-sorted order is optimal: it is no worse than any permutation
      of the same tasks. The last task of the sorted order has the latest
      deadline; whatever task a permutation runs last also finishes at the total
      time but has a deadline no later, and dropping the sorted order's last task
      from the permutation reduces to the shorter case. */
  lemma {:induction false} SortedOrderOptimal(s: seq<Task>, p: seq<Task>)
    requires SortedByDeadline(s) && multiset(s) == multiset(p) && NonNegative(p)
    ensures Objective(s) <= Objective(p)
    decreases |s|
  {
    if s != [] {
      var n := |s| - 1;
      LastNoBetter(s, p);
      assert s[n] in multiset(p);
      var k :| 0 <= k < |p| && p[k] == s[n];
      RemoveFromPermutation(s, p, k);
      SortedOrderOptimal(s[..n], p[..k] + p[k + 1..]);
      RemoveNoWorse(p, k);
      ObjectiveLast(s);
    }
  }

  /** The Earliest-Deadline-First order minimises the maximum lateness over every
      ordering of the same tasks. */
  lemma EdfIsOptimal(tasks: seq<Task>, p: seq<Task>)
    requires multiset(p) == multiset(tasks) && NonNegative(tasks)
    ensures Objective(SortByDeadline(tasks)) <= Objective(p)
  {
    SortIsSorted(tasks);
    assert NonNegative(p) by {
      forall j | 0 <= j < |p|
        ensures p[j].procTime >= 0
      {
        assert p[j] in multiset(tasks);
      }
    }
    SortedOrderOptimal(SortByDeadline(tasks), p);
  }

  /** The exchange step: swapping two adjacent tasks that are out of deadline order
      does not increase the maximum lateness. */
  lemma ExchangeNoWorse(p: seq<Task>, i: nat)
    requires i + 1 < |p| && p[i].deadline > p[i + 1].deadline && p[i].procTime >= 0
    ensures Objective(p[..i] + [p[i + 1], p[i]] + p[i + 2..]) <= Objective(p)
  {
    var q := p[..i] + [p[i + 1], p[i]] + p[i + 2..];
    assert q[..i] == p[..i];
    TotalStep(p, i);
    TotalStep(q, i);
    TotalStep(p, i + 1);
    TotalStep(q, i + 1);
    SimulateAt(p, i + 1);
    forall j | 0 <= j < |q|
      ensures Simulate(q)[j].lateness <= Objective(p)
    {
      SimulateAt(q, j);
      if j < i {
        SimulateAt(p, j);
        assert q[..j] == p[..j];
      } else if j == i {
        // p[i + 1] now starts earlier.
        LatenessMonotone(p[i + 1], Total(p[..i]), p[i + 1], Total(p[..i + 1]));
      } else if j == i + 1 {
        // p[i] now finishes when p[i + 1] did, and its deadline is later.
        LatenessMonotone(p[i], Total(q[..i + 1]), p[i + 1], Total(p[..i + 1]));
      } else {
        SwapSameTotalAfter(p, i, j);
        SimulateAt(p, j);
      }
    }
    MaxLatenessLeast(Simulate(q), Objective(p));
  }

  /** Past the swapped pair, every task starts at the same time as before. */
  lemma SwapSameTotalAfter(p: seq<Task>, i: nat, j: nat)
    requires i + 2 <= j <= |p|
    ensures Total((p[..i] + [p[i + 1], p[i]] + p[i + 2..])[..j]) == Total(p[..j])
  {
    var q := p[..i] + [p[i + 1], p[i]] + p[i + 2..];
    assert q[..j] == q[..i + 2] + p[i + 2..j];
    assert p[..j] == p[..i + 2] + p[i + 2..j];
    TotalAppend(q[..i + 2], p[i + 2..j]);
    TotalAppend(p[..i + 2], p[i + 2..j]);
    SwapSameTotalPair(p, i);
  }

  /** The swapped pair together takes as long as before. */
  lemma SwapSameTotalPair(p: seq<Task>, i: nat)
    requires i + 1 < |p|
    ensures Total((p[..i] + [p[i + 1], p[i]] + p[i + 2..])[..i + 2]) == Total(p[..i + 2])
  {
    var q := p[..i] + [p[i + 1], p[i]] + p[i + 2..];
    assert q[..i] == p[..i];
    TotalStep(p, i);
    TotalStep(q, i);
    TotalStep(p, i + 1);
    TotalStep(q, i + 1);
  }
}
