/** Three worked examples, evaluated on the reference definitions. The task
    names are left arbitrary: they are copied, never compared. */
module Scenarios {
  import opened Tasks
  import opened StableSort
  import opened Timeline

  /** Deadlines 5, 3, 2 are run as C, B, A; only A finishes late, by 1. */
  lemma ThreeTasks(na: string, nb: string, nc: string)
    ensures var schedule := Simulate(SortByDeadline([Task(na, 3, 5), Task(nb, 2, 3), Task(nc, 1, 2)]));
      && schedule == [Entry(nc, 0, 1, 2, 0), Entry(nb, 1, 3, 3, 0), Entry(na, 3, 6, 5, 1)]
      && MaxLateness(schedule) == 1
  {
    SortThree(na, nb, nc);
    RunThree(na, nb, nc);
  }

  lemma SortThree(na: string, nb: string, nc: string)
    ensures SortByDeadline([Task(na, 3, 5), Task(nb, 2, 3), Task(nc, 1, 2)])
         == [Task(nc, 1, 2), Task(nb, 2, 3), Task(na, 3, 5)]
  {
    var a, b, c := Task(na, 3, 5), Task(nb, 2, 3), Task(nc, 1, 2);
    assert [a, b, c][..2] == [a, b];
    assert SortByDeadline([a, b, c]) == Insert(SortByDeadline([a, b]), c);
    SortTwo(na, nb);
    InsertFirst([b, a], c);
  }

  lemma SortTwo(na: string, nb: string)
    ensures SortByDeadline([Task(na, 3, 5), Task(nb, 2, 3)]) == [Task(nb, 2, 3), Task(na, 3, 5)]
  {
    var a, b := Task(na, 3, 5), Task(nb, 2, 3);
    assert [a, b][..1] == [a] && [a][..0] == [];
    assert SortByDeadline([a, b]) == Insert([a], b);
    InsertFirst([a], b);
  }

  /** A task due before all others goes first. */
  lemma InsertFirst(s: seq<Task>, x: Task)
    requires forall k :: 0 <= k < |s| ==> s[k].deadline > x.deadline
    ensures Insert(s, x) == [x] + s
  {
    InsertPosition(s, x, 0);
    assert s[..0] == [] && s[0..] == s;
  }

  lemma RunThree(na: string, nb: string, nc: string)
    ensures Simulate([Task(nc, 1, 2), Task(nb, 2, 3), Task(na, 3, 5)])
         == [Entry(nc, 0, 1, 2, 0), Entry(nb, 1, 3, 3, 0), Entry(na, 3, 6, 5, 1)]
  {
    var a, b, c := Task(na, 3, 5), Task(nb, 2, 3), Task(nc, 1, 2);
    var order := [c, b, a];
    assert order[..2] == [c, b] && [c, b][..1] == [c] && [c][..0] == [];
    assert Total([c]) == 1 && Total([c, b]) == 3;
    assert Simulate([c, b]) == [Entry(nc, 0, 1, 2, 0), Entry(nb, 1, 3, 3, 0)];
  }

  /** A single task runs from 0 to its processing time. */
  lemma OnlyTask(n: string)
    ensures var schedule := Simulate(SortByDeadline([Task(n, 5, 2)]));
      && schedule == [Entry(n, 0, 5, 2, 3)]
      && MaxLateness(schedule) == 3
  {
  }

  /** Equal deadlines keep the input order. */
  lemma EqualDeadlines(nx: string, ny: string)
    ensures var schedule := Simulate(SortByDeadline([Task(nx, 2, 10), Task(ny, 3, 10)]));
      && schedule == [Entry(nx, 0, 2, 10, 0), Entry(ny, 2, 5, 10, 0)]
      && MaxLateness(schedule) == 0
  {
    var x, y := Task(nx, 2, 10), Task(ny, 3, 10);
    assert [x, y][..1] == [x] && [x][..0] == [];
    assert SortByDeadline([x, y]) == Insert([x], y) == [x, y];
  }
}
