/** The records the scheduler consumes and produces, and the sum of
    processing times that every timeline property is phrased in. */
module Tasks {

  /** One input record `(name, proc_time, deadline)`. Times are unbounded
      integers, as Python's are. */
  datatype Task = Task(name: string, procTime: int, deadline: int)

  /** One output record `(name, start, finish, deadline, lateness)`. */
  datatype Entry = Entry(name: string, start: int, finish: int, deadline: int, lateness: int)

  function Max(a: int, b: int): (m: int)
    ensures m >= a && m >= b && (m == a || m == b)
  {
    if a >= b then a else b
  }

  /** Every processing time is at least zero (the entry form asks for at least one). */
  ghost predicate NonNegative(s: seq<Task>)
  {
    forall i :: 0 <= i < |s| ==> s[i].procTime >= 0
  }

  /** The sum of the processing times of `s`. */
  function Total(s: seq<Task>): (r: int)
    ensures NonNegative(s) ==> r >= 0
  {
    if s == [] then 0
    else
      assert NonNegative(s) ==> NonNegative(s[..|s| - 1]);
      Total(s[..|s| - 1]) + s[|s| - 1].procTime
  }

  lemma {:induction false} TotalAppend(a: seq<Task>, b: seq<Task>)
    ensures Total(a + b) == Total(a) + Total(b)
    decreases |b|
  {
    if b == [] {
      assert a + b == a;
    } else {
      var n := |b| - 1;
      assert (a + b)[..|a + b| - 1] == a + b[..n];
      TotalAppend(a, b[..n]);
    }
  }

  /** One more task adds its processing time. */
  lemma TotalStep(s: seq<Task>, k: nat)
    requires k < |s|
    ensures Total(s[..k + 1]) == Total(s[..k]) + s[k].procTime
  {
    assert s[..k + 1][..k] == s[..k];
  }

  /** With non-negative processing times, a prefix never takes longer than the whole. */
  lemma PrefixTotalBound(s: seq<Task>, k: nat)
    requires k <= |s| && NonNegative(s)
    ensures Total(s[..k]) <= Total(s)
  {
    assert s == s[..k] + s[k..];
    TotalAppend(s[..k], s[k..]);
    assert NonNegative(s[k..]);
  }

  /** Removing the task at `k` takes its processing time off the sum. */
  lemma TotalRemove(s: seq<Task>, k: nat)
    requires k < |s|
    ensures Total(s[..k] + s[k + 1..]) + s[k].procTime == Total(s)
  {
    assert s == s[..k + 1] + s[k + 1..];
    TotalAppend(s[..k + 1], s[k + 1..]);
    TotalStep(s, k);
    TotalAppend(s[..k], s[k + 1..]);
  }

  /** Taking out the task at `k` takes one copy of it out of the multiset. */
  lemma MultisetRemove(p: seq<Task>, k: nat)
    requires k < |p|
    ensures multiset(p[..k] + p[k + 1..]) == multiset(p) - multiset{p[k]}
  {
    assert p == p[..k] + [p[k]] + p[k + 1..];
  }

  /** Taking off the last task takes one copy of it out of the multiset. */
  lemma MultisetDropLast(s: seq<Task>)
    requires s != []
    ensures multiset(s[..|s| - 1]) == multiset(s) - multiset{s[|s| - 1]}
  {
    assert s == s[..|s| - 1] + [s[|s| - 1]];
  }

  /** The sum depends only on which tasks there are, not on their order. */
  lemma {:induction false} TotalPermutation(s: seq<Task>, p: seq<Task>)
    requires multiset(s) == multiset(p)
    ensures Total(s) == Total(p)
    decreases |s|
  {
    if s == [] {
      assert |p| == |multiset(p)| == 0;
    } else {
      var n := |s| - 1;
      assert s[n] in multiset(p);
      var k :| 0 <= k < |p| && p[k] == s[n];
      MultisetRemove(p, k);
      MultisetDropLast(s);
      TotalPermutation(s[..n], p[..k] + p[k + 1..]);
      TotalRemove(p, k);
    }
  }
}
