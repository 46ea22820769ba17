/** The plain domain objects: a task, and a named list that owns a sequence of tasks. */
module Domain {
  import opened Wrappers
  import opened Enums

  datatype Task = Task(
    id: int,
    title: string,
    description: Option<string>,
    status: Status,
    priority: Priority,
    listId: int)

  datatype TaskList = TaskList(id: int, name: string, tasks: seq<Task>)

  /** Two tasks agree on every field except, possibly, the status. */
  predicate SameExceptStatus(a: Task, b: Task) {
    a.id == b.id && a.title == b.title && a.description == b.description
    && a.priority == b.priority && a.listId == b.listId
  }

  /** `mark_done`: the task becomes done and nothing else about it changes. */
  function MarkDone(t: Task): (r: Task)
    ensures r.status == Done
    ensures SameExceptStatus(t, r)
  {
    t.(status := Done)
  }

  lemma MarkDoneIdempotent(t: Task)
    ensures MarkDone(MarkDone(t)) == MarkDone(t)
  {
  }

  /** The constructor: a missing (or empty) task sequence becomes the empty sequence. */
  function NewTaskList(id: int, name: string, tasks: Option<seq<Task>>): (l: TaskList)
    ensures l.id == id && l.name == name
    ensures tasks.None? ==> l.tasks == []
    ensures tasks.Some? ==> l.tasks == tasks.value
  {
    TaskList(id, name, if tasks.Some? then tasks.value else [])
  }

  /** `add_task` appends: one more task, the new one last, the earlier ones untouched. */
  function AddTask(l: TaskList, t: Task): (r: TaskList)
    ensures r.id == l.id && r.name == l.name
    ensures |r.tasks| == |l.tasks| + 1
    ensures r.tasks[|l.tasks|] == t
    ensures r.tasks[..|l.tasks|] == l.tasks
  {
    l.(tasks := l.tasks + [t])
  }

  /** The number of done tasks in a sequence. */
  function CountDone(ts: seq<Task>): (n: nat)
    ensures n <= |ts|
    ensures n == |ts| <==> forall i :: 0 <= i < |ts| ==> ts[i].status == Done
    ensures n == 0 <==> forall i :: 0 <= i < |ts| ==> ts[i].status != Done
  {
    if ts == [] then 0
    else
      assert forall i :: 1 <= i < |ts| ==> ts[i] == ts[1..][i - 1];
      (if ts[0].status == Done then 1 else 0) + CountDone(ts[1..])
  }

  /** `done` out of `total` as a percentage, exactly. */
  function Ratio(done: nat, total: nat): (r: real)
    requires 0 < total && done <= total
    ensures 0.0 <= r <= 100.0
    ensures r * (total as real) == 100.0 * (done as real)
    ensures r == 100.0 <==> done == total
    ensures r == 0.0 <==> done == 0
  {
    RatioFacts(done as real, total as real);
    ((done as real) / (total as real)) * 100.0
  }

  lemma RatioFacts(done: real, total: real)
    requires 0.0 <= done <= total && total > 0.0
    ensures var q := (done / total) * 100.0;
      && 0.0 <= q <= 100.0
      && q * total == 100.0 * done
      && (q == 100.0 <==> done == total)
      && (q == 0.0 <==> done == 0.0)
  {
    var q := (done / total) * 100.0;
    assert done / total <= 1.0;
    assert q * total == 100.0 * done;
    if q == 100.0 {
      assert 100.0 * total == 100.0 * done;
    }
  }

  /** More done tasks out of the same total never give a smaller ratio. */
  lemma RatioMonotone(done: nat, done': nat, total: nat)
    requires 0 < total && done <= done' <= total
    ensures Ratio(done, total) <= Ratio(done', total)
  {
    ScaledOrder(Ratio(done, total), Ratio(done', total), total as real, done as real, done' as real);
  }

  lemma ScaledOrder(r: real, r': real, n: real, d: real, d': real)
    requires n > 0.0 && d <= d'
    requires r * n == 100.0 * d && r' * n == 100.0 * d'
    ensures r <= r'
  {
  }

  /** `completion_percentage`: the exact ratio of done tasks, 0 for a list without tasks. */
  function CompletionPercentage(l: TaskList): (r: real)
    ensures 0.0 <= r <= 100.0
    ensures l.tasks == [] ==> r == 0.0
    ensures l.tasks != [] ==> r == Ratio(CountDone(l.tasks), |l.tasks|)
  {
    if l.tasks == [] then 0.0 else Ratio(CountDone(l.tasks), |l.tasks|)
  }

  /** Every task done means 100, and no task done means 0. */
  lemma CompletionExtremes(l: TaskList)
    ensures CompletionPercentage(l) == 100.0
        <==> l.tasks != [] && forall i :: 0 <= i < |l.tasks| ==> l.tasks[i].status == Done
    ensures CompletionPercentage(l) == 0.0
        <==> forall i :: 0 <= i < |l.tasks| ==> l.tasks[i].status != Done
  {
  }

  /** Calling `mark_done` on the task at position `i` of a list. */
  function MarkDoneAt(l: TaskList, i: nat): (r: TaskList)
    requires i < |l.tasks|
    ensures r.id == l.id && r.name == l.name && |r.tasks| == |l.tasks|
    ensures r.tasks[i].status == Done && SameExceptStatus(l.tasks[i], r.tasks[i])
    ensures forall j :: 0 <= j < |l.tasks| && j != i ==> r.tasks[j] == l.tasks[j]
  {
    l.(tasks := l.tasks[i := MarkDone(l.tasks[i])])
  }

  /** Marking one task done raises the done count by one exactly when it was not done already. */
  lemma {:induction false} CountDoneMarkDone(ts: seq<Task>, i: nat)
    requires i < |ts|
    ensures CountDone(ts[i := MarkDone(ts[i])])
         == CountDone(ts) + (if ts[i].status == Done then 0 else 1)
    decreases i
  {
    var us := ts[i := MarkDone(ts[i])];
    if i == 0 {
      assert us[1..] == ts[1..];
    } else {
      CountDoneMarkDone(ts[1..], i - 1);
      assert us[1..] == ts[1..][i - 1 := MarkDone(ts[1..][i - 1])];
    }
  }

  /** The done count of a concatenation is the sum of the parts' counts. */
  lemma {:induction false} CountDoneAppend(a: seq<Task>, b: seq<Task>)
    ensures CountDone(a + b) == CountDone(a) + CountDone(b)
    decreases |a|
  {
    if a != [] {
      CountDoneAppend(a[1..], b);
      assert (a + b)[1..] == a[1..] + b;
    } else {
      assert a + b == b;
    }
  }

  /** `add_task` raises the done count by one exactly when the added task is done. */
  lemma AddTaskCountsDone(l: TaskList, t: Task)
    ensures CountDone(AddTask(l, t).tasks) == CountDone(l.tasks) + (if t.status == Done then 1 else 0)
  {
    CountDoneAppend(l.tasks, [t]);
  }

  /** Marking any task done never lowers the completion percentage. */
  lemma MarkDoneNeverDecreasesCompletion(l: TaskList, i: nat)
    requires i < |l.tasks|
    ensures CompletionPercentage(MarkDoneAt(l, i)) >= CompletionPercentage(l)
  {
    var m := MarkDoneAt(l, i);
    assert m.tasks == l.tasks[i := MarkDone(l.tasks[i])];
    CountDoneMarkDone(l.tasks, i);
    RatioMonotone(CountDone(l.tasks), CountDone(m.tasks), |l.tasks|);
  }
}
