/** Python's `sorted(tasks, key=lambda x: x[2])`: a stable sort by deadline.
    The reference definition is a functional insertion sort; the scheduler
    runs the same insertion sort in place on a fresh array. */
module StableSort {
  import opened Tasks

  /** Non-decreasing deadlines. */
  ghost predicate SortedByDeadline(s: seq<Task>)
  {
    forall i, j :: 0 <= i < j < |s| ==> s[i].deadline <= s[j].deadline
  }

  /** The tasks of `s` whose deadline is `d`, in the order they appear in `s`.
      A sort is stable exactly when it leaves each of these unchanged. */
  function WithDeadline(s: seq<Task>, d: int): seq<Task>
  {
    if s == [] then []
    else WithDeadline(s[..|s| - 1], d) + (if s[|s| - 1].deadline == d then [s[|s| - 1]] else [])
  }

  /** Inserts `x` into `s` after every task whose deadline is not later than its own. */
  function Insert(s: seq<Task>, x: Task): (r: seq<Task>)
    ensures multiset(r) == multiset(s) + multiset{x}
    ensures |r| == |s| + 1
  {
    if s == [] || s[|s| - 1].deadline <= x.deadline then s + [x]
    else
      assert s == s[..|s| - 1] + [s[|s| - 1]];
      Insert(s[..|s| - 1], x) + [s[|s| - 1]]
  }

  /** Insertion sort by deadline, inserting the tasks in input order. */
  function SortByDeadline(s: seq<Task>): (r: seq<Task>)
    ensures multiset(r) == multiset(s)
    ensures |r| == |s|
  {
    if s == [] then []
    else
      assert s == s[..|s| - 1] + [s[|s| - 1]];
      Insert(SortByDeadline(s[..|s| - 1]), s[|s| - 1])
  }

  lemma WithDeadlineAppend(a: seq<Task>, b: seq<Task>, d: int)
    ensures WithDeadline(a + b, d) == WithDeadline(a, d) + WithDeadline(b, d)
    decreases |b|
  {
    if b == [] {
      assert a + b == a;
    } else {
      var n := |b| - 1;
      assert (a + b)[..|a + b| - 1] == a + b[..n];
      WithDeadlineAppend(a, b[..n], d);
    }
  }

  /** A task is in `WithDeadline(s, d)` exactly when it is in `s` and its deadline is `d`. */
  lemma {:induction false} WithDeadlineMembers(s: seq<Task>, d: int, t: Task)
    ensures t in WithDeadline(s, d) <==> t in s && t.deadline == d
  {
    if s != [] {
      var n := |s| - 1;
      assert s == s[..n] + [s[n]];
      WithDeadlineMembers(s[..n], d, t);
    }
  }

  lemma {:induction false} InsertSorted(s: seq<Task>, x: Task)
    requires SortedByDeadline(s)
    ensures SortedByDeadline(Insert(s, x))
    decreases |s|
  {
    if s == [] || s[|s| - 1].deadline <= x.deadline {
    } else {
      var n := |s| - 1;
      var init := Insert(s[..n], x);
      InsertSorted(s[..n], x);
      forall i | 0 <= i < |init|
        ensures init[i].deadline <= s[n].deadline
      {
        assert init[i] in multiset(init);
        if init[i] != x {
          assert init[i] in multiset(s[..n]);
          var j :| 0 <= j < n && s[..n][j] == init[i];
        }
      }
    }
  }

  /** The inserted task goes after every task with the same deadline. */
  lemma {:induction false} InsertKeepsOrder(s: seq<Task>, x: Task, d: int)
    ensures WithDeadline(Insert(s, x), d) == WithDeadline(s + [x], d)
    decreases |s|
  {
    if s == [] || s[|s| - 1].deadline <= x.deadline {
    } else {
      var n := |s| - 1;
      var last := s[n];
      InsertKeepsOrder(s[..n], x, d);
      WithDeadlineAppend(Insert(s[..n], x), [last], d);
      WithDeadlineAppend(s[..n], [x], d);
      assert s + [x] == s[..n] + [last] + [x];
      WithDeadlineAppend(s[..n] + [last], [x], d);
      WithDeadlineAppend(s[..n], [last], d);
      assert [last][..0] == [] && [x][..0] == [];
    }
  }

  lemma {:induction false} SortIsSorted(s: seq<Task>)
    ensures SortedByDeadline(SortByDeadline(s))
  {
    if s != [] {
      SortIsSorted(s[..|s| - 1]);
      InsertSorted(SortByDeadline(s[..|s| - 1]), s[|s| - 1]);
    }
  }

  /** Stability: tasks with equal deadlines keep their relative input order. */
  lemma {:induction false} SortIsStable(s: seq<Task>, d: int)
    ensures WithDeadline(SortByDeadline(s), d) == WithDeadline(s, d)
  {
    if s != [] {
      var n := |s| - 1;
      var x := s[n];
      var init := SortByDeadline(s[..n]);
      var tail := if x.deadline == d then [x] else [];
      calc {
        WithDeadline(SortByDeadline(s), d);
        WithDeadline(Insert(init, x), d);
        { InsertKeepsOrder(init, x, d); }
        WithDeadline(init + [x], d);
        { assert (init + [x])[..|init + [x]| - 1] == init; }
        WithDeadline(init, d) + tail;
        { SortIsStable(s[..n], d); }
        WithDeadline(s[..n], d) + tail;
        WithDeadline(s, d);
      }
    }
  }

  lemma NonEmptyAtLast(r: seq<Task>)
    requires r != []
    ensures WithDeadline(r, r[|r| - 1].deadline) != []
  {
  }

  /** In a deadline-sorted sequence, the last task has the latest deadline. */
  lemma LastIsLatest(r: seq<Task>, t: Task)
    requires SortedByDeadline(r) && t in r
    ensures t.deadline <= r[|r| - 1].deadline
  {
    var j :| 0 <= j < |r| && r[j] == t;
    assert j == |r| - 1 || r[j].deadline <= r[|r| - 1].deadline;
  }

  /** If two deadline-sorted sequences agree on the subsequences of their last
      tasks' deadlines, they end with the same task: each last task has the latest
      deadline of both, so both end that deadline's subsequence. */
  lemma SameLast(r1: seq<Task>, r2: seq<Task>)
    requires SortedByDeadline(r1) && SortedByDeadline(r2) && r1 != [] && r2 != []
    requires WithDeadline(r1, r1[|r1| - 1].deadline) == WithDeadline(r2, r1[|r1| - 1].deadline)
    requires WithDeadline(r1, r2[|r2| - 1].deadline) == WithDeadline(r2, r2[|r2| - 1].deadline)
    ensures r1[|r1| - 1] == r2[|r2| - 1]
  {
    var n1, n2 := |r1| - 1, |r2| - 1;
    var x1, x2 := r1[n1], r2[n2];
    WithDeadlineMembers(r1, x1.deadline, x1);
    WithDeadlineMembers(r2, x1.deadline, x1);
    LastIsLatest(r2, x1);
    WithDeadlineMembers(r2, x2.deadline, x2);
    WithDeadlineMembers(r1, x2.deadline, x2);
    LastIsLatest(r1, x2);
    var m := x1.deadline;
    var w1, w2 := WithDeadline(r1[..n1], m), WithDeadline(r2[..n2], m);
    assert WithDeadline(r1, m) == w1 + [x1];
    assert WithDeadline(r2, m) == w2 + [x2];
    assert (w1 + [x1])[|w1|] == x1 && (w2 + [x2])[|w2|] == x2;
  }

  /** Dropping a common last task keeps every per-deadline subsequence in agreement. */
  lemma AgreeWithoutLast(r1: seq<Task>, r2: seq<Task>, d: int)
    requires r1 != [] && r2 != [] && r1[|r1| - 1] == r2[|r2| - 1]
    requires WithDeadline(r1, d) == WithDeadline(r2, d)
    ensures WithDeadline(r1[..|r1| - 1], d) == WithDeadline(r2[..|r2| - 1], d)
  {
    var x := r1[|r1| - 1];
    var w1, w2 := WithDeadline(r1[..|r1| - 1], d), WithDeadline(r2[..|r2| - 1], d);
    if x.deadline == d {
      assert w1 + [x] == w2 + [x];
      assert w1 == (w1 + [x])[..|w1|];
      assert w2 == (w2 + [x])[..|w2|];
    } else {
      assert WithDeadline(r1, d) == w1 + [] == w1;
      assert WithDeadline(r2, d) == w2 + [] == w2;
    }
  }

  /** Two deadline-sorted sequences that agree on every per-deadline subsequence are equal. */
  lemma {:induction false} SortedAgreeingEqual(r1: seq<Task>, r2: seq<Task>)
    requires SortedByDeadline(r1) && SortedByDeadline(r2)
    requires forall d :: WithDeadline(r1, d) == WithDeadline(r2, d)
    ensures r1 == r2
    decreases |r1| + |r2|
  {
    if r1 == [] && r2 == [] {
    } else if r2 == [] {
      // The last task of r1 has no counterpart in the empty r2.
      NonEmptyAtLast(r1);
      assert false;
    } else if r1 == [] {
      NonEmptyAtLast(r2);
      assert false;
    } else {
      var n1, n2 := |r1| - 1, |r2| - 1;
      assert WithDeadline(r1, r1[n1].deadline) == WithDeadline(r2, r1[n1].deadline);
      assert WithDeadline(r1, r2[n2].deadline) == WithDeadline(r2, r2[n2].deadline);
      SameLast(r1, r2);
      forall d
        ensures WithDeadline(r1[..n1], d) == WithDeadline(r2[..n2], d)
      {
        AgreeWithoutLast(r1, r2, d);
      }
      SortedAgreeingEqual(r1[..n1], r2[..n2]);
      assert r1 == r1[..n1] + [r1[n1]] && r2 == r2[..n2] + [r2[n2]];
    }
  }

  /** SortByDeadline is THE stable sort: any deadline-sorted arrangement that keeps
      each per-deadline subsequence of `s` in order is it. */
  lemma StableSortUnique(s: seq<Task>, r: seq<Task>)
    requires SortedByDeadline(r)
    requires forall d :: WithDeadline(r, d) == WithDeadline(s, d)
    ensures r == SortByDeadline(s)
  {
    SortIsSorted(s);
    forall d
      ensures WithDeadline(r, d) == WithDeadline(SortByDeadline(s), d)
    {
      SortIsStable(s, d);
    }
    SortedAgreeingEqual(r, SortByDeadline(s));
  }

  /** Sorting an already sorted list changes nothing. */
  lemma SortIdempotent(s: seq<Task>)
    ensures SortByDeadline(SortByDeadline(s)) == SortByDeadline(s)
  {
    SortIsSorted(s);
    StableSortUnique(SortByDeadline(s), SortByDeadline(s));
  }

  /** Where `Insert` puts `x`: right after the last task whose deadline is not
      later than its own, that is, before the run of strictly later tasks at the end. */
  lemma {:induction false} InsertPosition(s: seq<Task>, x: Task, j: nat)
    requires j <= |s|
    requires j == 0 || s[j - 1].deadline <= x.deadline
    requires forall k :: j <= k < |s| ==> s[k].deadline > x.deadline
    ensures Insert(s, x) == s[..j] + [x] + s[j..]
  {
    if j < |s| {
      var n := |s| - 1;
      assert s[n].deadline > x.deadline;
      calc {
        Insert(s, x);
        Insert(s[..n], x) + [s[n]];
        { InsertPosition(s[..n], x, j); }
        s[..n][..j] + [x] + s[..n][j..] + [s[n]];
        { assert s[..n][..j] == s[..j]; assert s[..n][j..] + [s[n]] == s[j..]; }
        s[..j] + [x] + s[j..];
      }
    } else {
      assert s[..j] == s;
    }
  }

  /** Shifts right, by one place, the tasks of `a[..i]` after the last one whose deadline is
      not later than `a[i]`'s, and returns the index of the gap that opens. */
  method OpenGap(a: array<Task>, i: nat) returns (j: nat)
    requires i < a.Length
    modifies a
    ensures j <= i
    ensures j == 0 || old(a[j - 1]).deadline <= old(a[i]).deadline
    ensures forall k :: j <= k < i ==> old(a[k]).deadline > old(a[i]).deadline
    ensures forall k :: 0 <= k < j ==> a[k] == old(a[k])
    ensures forall k :: j < k <= i ==> a[k] == old(a[k - 1])
    ensures forall k :: i < k < a.Length ==> a[k] == old(a[k])
  {
    var x := a[i];
    j := i;
    while j > 0 && a[j - 1].deadline > x.deadline
      invariant j <= i
      invariant forall k :: 0 <= k < j ==> a[k] == old(a[k])
      invariant forall k :: j < k <= i ==> a[k] == old(a[k - 1])
      invariant forall k :: i < k < a.Length ==> a[k] == old(a[k])
      invariant forall k :: j <= k < i ==> old(a[k]).deadline > x.deadline
    {
      a[j] := a[j - 1];
      j := j - 1;
    }
  }

  /** The array after the gap is filled: the prefix before `j`, then `x`, then the
      tasks that were shifted one place right. */
  lemma Filled(b: seq<Task>, sorted: seq<Task>, j: nat, x: Task)
    requires j <= |sorted| && |b| == |sorted| + 1 && b[j] == x
    requires forall k :: 0 <= k < j ==> b[k] == sorted[k]
    requires forall k :: j < k < |b| ==> b[k] == sorted[k - 1]
    ensures b == sorted[..j] + [x] + sorted[j..]
  {
  }

  /** Inserts `a[i]` into the sorted prefix `a[..i]`, leaving the rest of the array alone. */
  method InsertInPlace(a: array<Task>, i: nat)
    requires i < a.Length
    modifies a
    ensures a[..i + 1] == Insert(old(a[..i]), old(a[i]))
    ensures forall k :: i < k < a.Length ==> a[k] == old(a[k])
  {
    ghost var sorted := a[..i];
    var x := a[i];
    var j := OpenGap(a, i);
    a[j] := x;
    InsertPosition(sorted, x, j);
    Filled(a[..i + 1], sorted, j, x);
  }

  /** Sorting one more task inserts it into the sorted prefix. */
  lemma SortStep(s: seq<Task>, i: nat)
    requires i < |s|
    ensures SortByDeadline(s[..i + 1]) == Insert(SortByDeadline(s[..i]), s[i])
  {
    assert s[..i + 1][..i] == s[..i];
  }

  /** Stable insertion sort by deadline, in place. */
  method SortInPlace(a: array<Task>)
    modifies a
    ensures a[..] == SortByDeadline(old(a[..]))
  {
    ghost var orig := a[..];
    for i := 0 to a.Length
      invariant a[..i] == SortByDeadline(orig[..i])
      invariant forall k :: i <= k < a.Length ==> a[k] == orig[k]
    {
      InsertInPlace(a, i);
      SortStep(orig, i);
    }
    assert a[..] == a[..a.Length];
    assert orig == orig[..a.Length];
  }
}
