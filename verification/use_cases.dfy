/**
 * The use-case layer: list and task lifecycles over the store, partial updates, and the
 * filtered-completion query.
 */
module UseCases {
  import opened Wrappers
  import opened Enums
  import opened Schemas
  import Decimal
  import Domain
  import Store

  /** The attributes `from_attributes` validation reads off a stored task row. */
  function TaskAttributes(t: Store.TaskRow): Fields {
    map["id" := Int(t.id), "title" := Str(t.title),
        "description" := (if t.description.Some? then Str(t.description.value) else Null),
        "status" := Str(StatusName(t.status)), "priority" := Str(PriorityName(t.priority)),
        "list_id" := Int(t.listId)]
  }

  /** The attributes `from_attributes` validation reads off a stored list row. */
  function ListAttributes(l: Store.ListRow): Fields {
    map["id" := Int(l.id), "name" := Str(l.name)]
  }

  function ToTaskOut(t: Store.TaskRow): TaskOut {
    TaskOut(t.id, t.title, t.description, t.status, t.priority, t.listId)
  }

  function ToListOut(l: Store.ListRow): TaskListOut {
    TaskListOut(l.id, l.name)
  }

  /** `TaskOut.model_validate(task)`: the attributes of a stored row always validate, to `ToTaskOut` of it. */
  lemma TaskRowValidates(t: Store.TaskRow)
    ensures ValidateTaskOut(TaskAttributes(t)) == Ok(ToTaskOut(t))
  {
    StatusRoundTrip(t.status);
    PriorityRoundTrip(t.priority);
  }

  /** `TaskListOut.model_validate(task_list)`: the attributes of a stored list always validate, to `ToListOut` of it. */
  lemma ListRowValidates(l: Store.ListRow)
    ensures ValidateTaskListOut(ListAttributes(l)) == Ok(ToListOut(l))
  {
  }

  lemma ToTaskOutInjective(a: Store.TaskRow, b: Store.TaskRow)
    ensures ToTaskOut(a) == ToTaskOut(b) ==> a == b
  {
  }

  // ---------------------------------------------------------------------------------------
  // TaskListUseCase

  /** `create_list`: exactly one new list, with the given name and a fresh id; nothing else changes. */
  function CreateList(db: Store.Db, data: TaskListCreate): (r: Store.Step<TaskListOut>)
    ensures r.value.name == data.name
    ensures r.value.id !in db.lists
    ensures r.db.lists == db.lists[r.value.id := Store.ListRow(r.value.id, data.name)]
    ensures r.db.tasks == db.tasks && r.db.users == db.users
  {
    var created := Store.CreateList(db, data.name);
    Store.Step(created.db, ToListOut(created.value))
  }

  /** Python truthiness of an optional string: present and not empty. */
  predicate Truthy(name: Option<string>) {
    name.Some? && name.value != ""
  }

  /** `update_list`: a truthy name replaces the old one; `None` or "" keeps it. A missing list is NotFound. */
  function UpdateList(db: Store.Db, id: int, data: TaskListUpdate): (r: Store.Step<Result<TaskListOut>>)
    requires Store.Keyed(db)
    ensures r.value.Err? <==> id !in db.lists
    ensures r.value.Err? ==> r.value.error == NotFound && r.db == db
    ensures r.value.Ok? ==> r.value.value.id == id
    ensures r.value.Ok? && Truthy(data.name) ==> r.value.value.name == data.name.value
    ensures r.value.Ok? && !Truthy(data.name) ==> r.value.value.name == db.lists[id].name
    ensures r.value.Ok? ==>
      && r.db.lists == db.lists[id := Store.ListRow(id, r.value.value.name)]
      && r.db.tasks == db.tasks && r.db.users == db.users
  {
    match Store.GetList(db, id)
    case None => Store.Step(db, Err(NotFound))
    case Some(row) =>
      var updated := if Truthy(data.name) then row.(name := data.name.value) else row;
      Store.Step(db.(lists := db.lists[id := updated]), Ok(ToListOut(updated)))
  }

  /** A falsy name leaves the database exactly as it was. */
  lemma UpdateListFalsyNameIsNoOp(db: Store.Db, id: int, data: TaskListUpdate)
    requires Store.Keyed(db) && !Truthy(data.name)
    ensures UpdateList(db, id, data).db == db
  {
    if id in db.lists {
      var r := UpdateList(db, id, data);
      assert r.db.lists == db.lists[id := db.lists[id]];
      assert db.lists[id := db.lists[id]] == db.lists;
    }
  }

  /** `get_list`, as the repository method it calls would behave: every list, in no stated order. */
  function GetAllLists(db: Store.Db): (r: set<TaskListOut>)
    ensures forall k :: k in db.lists ==> ToListOut(db.lists[k]) in r
    ensures Store.Keyed(db) ==> forall o :: o in r ==> o.id in db.lists && db.lists[o.id].name == o.name
  {
    set k | k in db.lists :: ToListOut(db.lists[k])
  }

  /** `get_list` as written: it calls `get_all_lists`, which the list repository does not define. */
  function GetListsAsWritten(db: Store.Db): (r: Result<set<TaskListOut>>)
    ensures r.Err? && r.error == AttributeError("get_all_lists")
  {
    Err(AttributeError("get_all_lists"))
  }

  /** `delete_list`: the list and its tasks are gone; a missing list is a silent no-op. */
  function DeleteList(db: Store.Db, id: int): (r: Store.Db)
    ensures Store.GetList(r, id).None?
    ensures id in db.lists ==> Store.ListTasks(r, id) == {}
    ensures r.lists.Keys == db.lists.Keys - {id}
    ensures forall k :: k in r.lists ==> r.lists[k] == db.lists[k]
    ensures forall k :: k in r.tasks <==> k in db.tasks && (id in db.lists ==> db.tasks[k].listId != id)
    ensures forall k :: k in r.tasks ==> r.tasks[k] == db.tasks[k]
    ensures r.users == db.users
    ensures id !in db.lists ==> r == db
  {
    Store.DeleteList(db, id)
  }

  /** The tasks that are done. */
  function DoneTasks(ts: set<Store.TaskRow>): (r: set<Store.TaskRow>)
    ensures forall t :: t in r <==> t in ts && t.status == Done
    ensures |r| <= |ts|
  {
    var r := set t | t in ts && t.status == Done;
    assert ts == r + (ts - r);
    assert r * (ts - r) == {};
    r
  }

  /** The completion figure: the integer percentage of `done` out of `total`, rounded down; 0 when `total` is 0. */
  function Percent(done: nat, total: nat): (p: nat)
    requires done <= total
    ensures p <= 100
    ensures total == 0 ==> p == 0
    ensures total > 0 ==> p * total <= 100 * done < (p + 1) * total
    ensures p == 100 <==> total > 0 && done == total
    ensures done == 0 ==> p == 0
  {
    if total == 0 then 0
    else
      PercentFacts(done, total);
      done * 100 / total
  }

  lemma PercentFacts(done: nat, total: nat)
    requires 0 < total && done <= total
    ensures var p := done * 100 / total;
      && p <= 100
      && p * total <= 100 * done < (p + 1) * total
      && (p == 100 <==> done == total)
      && (done == 0 ==> p == 0)
  {
    var x := done * 100;
    var p := x / total;
    DivisionBounds(x, total);
    MulLe(done, total, 100);
    CancelLe(p, 100, total);
    if p == 100 {
      CancelLe(total, done, 100);
    }
    if done == total {
      CancelLt(100, p + 1, total);
    }
    if done == 0 {
      CancelLe(p, 0, total);
    }
  }

  lemma DivisionBounds(x: nat, y: nat)
    requires y > 0
    ensures (x / y) * y <= x < (x / y + 1) * y
  {
  }

  lemma MulLe(a: nat, b: nat, c: nat)
    requires a <= b
    ensures a * c <= b * c
  {
  }

  lemma CancelLe(a: nat, b: nat, c: nat)
    requires c > 0 && a * c <= b * c
    ensures a <= b
  {
  }

  lemma CancelLt(a: nat, b: nat, c: nat)
    requires c > 0 && a * c < b * c
    ensures a < b
  {
  }

  /** `f"{percentage}%"`: a decimal numeral without a leading zero, then '%'; the numeral reads back as
      the figure. */
  function RenderPercent(p: nat): (c: string)
    ensures |c| >= 2 && c[|c| - 1] == '%'
    ensures Decimal.AllDigits(c[..|c| - 1])
    ensures Decimal.ParseDigits(c[..|c| - 1]) == p
    ensures c[0] == '0' ==> c == "0%"
  {
    var c := Decimal.NatToString(p) + "%";
    assert c[..|c| - 1] == Decimal.NatToString(p);
    Decimal.ParseNatToString(p);
    c
  }

  /** The tasks `list_tasks_with_completion` selects: the repository query with the same filters. */
  function Selected(db: Store.Db, listId: int, status: Option<Status>, priority: Option<Priority>): set<Store.TaskRow> {
    Store.GetTasksByList(db, listId, status, priority)
  }

  /** `list_tasks_with_completion`: exactly the filtered tasks of the list, and the share of done tasks among
      them as "<p>%", where p is the rounded-down percentage and 0 for an empty selection. */
  function ListTasksWithCompletion(db: Store.Db, listId: int, status: Option<Status>, priority: Option<Priority>)
    : (r: TaskListFilteredResponse)
    ensures forall k :: k in db.tasks ==>
      (ToTaskOut(db.tasks[k]) in r.tasks <==>
        db.tasks[k].listId == listId && Store.HasStatus(db.tasks[k], status) && Store.HasPriority(db.tasks[k], priority))
    ensures forall o :: o in r.tasks ==>
      o.listId == listId && (status.Some? ==> o.status == status.value) && (priority.Some? ==> o.priority == priority.value)
    ensures forall o :: o in r.tasks ==> exists k :: k in db.tasks && o == ToTaskOut(db.tasks[k])
    ensures |r.completion| >= 2 && r.completion[|r.completion| - 1] == '%'
    ensures r.completion[0] == '0' ==> r.completion == "0%"
    ensures Decimal.AllDigits(r.completion[..|r.completion| - 1])
    ensures var p := Decimal.ParseDigits(r.completion[..|r.completion| - 1]);
      var total := |Selected(db, listId, status, priority)|;
      var done := |DoneTasks(Selected(db, listId, status, priority))|;
      && p <= 100
      && (total == 0 ==> p == 0)
      && (total > 0 ==> p * total <= 100 * done < (p + 1) * total)
  {
    var tasks := Selected(db, listId, status, priority);
    var p := Percent(|DoneTasks(tasks)|, |tasks|);
    SelectedOutputs(db, listId, status, priority);
    CompletionFacts(|DoneTasks(tasks)|, |tasks|);
    TaskListFilteredResponse(Outputs(tasks), RenderPercent(p))
  }

  /** The rendered figure of `done` out of `total`: a numeral without a leading zero, then '%', whose
      value is the rounded-down percentage. */
  lemma CompletionFacts(done: nat, total: nat)
    requires done <= total
    ensures var c := RenderPercent(Percent(done, total));
      && |c| >= 2 && c[|c| - 1] == '%'
      && (c[0] == '0' ==> c == "0%")
      && Decimal.AllDigits(c[..|c| - 1])
      && var p := Decimal.ParseDigits(c[..|c| - 1]);
        && p <= 100
        && (total == 0 ==> p == 0)
        && (total > 0 ==> p * total <= 100 * done < (p + 1) * total)
  {
  }

  function Outputs(tasks: set<Store.TaskRow>): set<TaskOut> {
    set t | t in tasks :: ToTaskOut(t)
  }

  lemma OutputsAreSelected(db: Store.Db, tasks: set<Store.TaskRow>)
    ensures forall k :: k in db.tasks ==> (ToTaskOut(db.tasks[k]) in Outputs(tasks) <==> db.tasks[k] in tasks)
  {
    forall k | k in db.tasks && ToTaskOut(db.tasks[k]) in Outputs(tasks)
      ensures db.tasks[k] in tasks
    {
      var t :| t in tasks && ToTaskOut(t) == ToTaskOut(db.tasks[k]);
      ToTaskOutInjective(t, db.tasks[k]);
    }
  }

  lemma OutputsAreStored(db: Store.Db, tasks: set<Store.TaskRow>)
    requires forall t :: t in tasks ==> t in db.tasks.Values
    ensures forall o :: o in Outputs(tasks) ==> exists k :: k in db.tasks && o == ToTaskOut(db.tasks[k])
  {
    forall o | o in Outputs(tasks)
      ensures exists k :: k in db.tasks && o == ToTaskOut(db.tasks[k])
    {
      var t :| t in tasks && o == ToTaskOut(t);
      if forall k :: k in db.tasks ==> db.tasks[k] != t {
        assert false;
      }
      var k :| k in db.tasks && db.tasks[k] == t;
    }
  }

  /** The outputs of the selection are exactly the stored tasks the filters match. */
  lemma SelectedOutputs(db: Store.Db, listId: int, status: Option<Status>, priority: Option<Priority>)
    ensures var out := Outputs(Selected(db, listId, status, priority));
      && (forall k :: k in db.tasks ==>
        (ToTaskOut(db.tasks[k]) in out <==>
          db.tasks[k].listId == listId && Store.HasStatus(db.tasks[k], status) && Store.HasPriority(db.tasks[k], priority)))
      && (forall o :: o in out ==>
        o.listId == listId && (status.Some? ==> o.status == status.value) && (priority.Some? ==> o.priority == priority.value))
      && (forall o :: o in out ==> exists k :: k in db.tasks && o == ToTaskOut(db.tasks[k]))
  {
    var tasks := Selected(db, listId, status, priority);
    OutputsAreSelected(db, tasks);
    OutputsAreStored(db, tasks);
  }

  /** The completion string is the rendered figure of the selection. */
  lemma CompletionIsRenderedFigure(db: Store.Db, listId: int, status: Option<Status>, priority: Option<Priority>)
    ensures var tasks := Selected(db, listId, status, priority);
      ListTasksWithCompletion(db, listId, status, priority).completion
        == RenderPercent(Percent(|DoneTasks(tasks)|, |tasks|))
  {
  }

  /** An empty selection reports "0%". */
  lemma CompletionOfEmptySelection(db: Store.Db, listId: int, status: Option<Status>, priority: Option<Priority>)
    requires Selected(db, listId, status, priority) == {}
    ensures ListTasksWithCompletion(db, listId, status, priority).completion == "0%"
  {
    CompletionIsRenderedFigure(db, listId, status, priority);
  }

  /** A non-empty selection of done tasks, such as the one filtering on status done, reports "100%". */
  lemma CompletionOfAllDone(db: Store.Db, listId: int, priority: Option<Priority>)
    requires Selected(db, listId, Some(Done), priority) != {}
    ensures ListTasksWithCompletion(db, listId, Some(Done), priority).completion == "100%"
  {
    var tasks := Selected(db, listId, Some(Done), priority);
    assert DoneTasks(tasks) == tasks;
    CompletionIsRenderedFigure(db, listId, Some(Done), priority);
    HundredRenders();
  }

  lemma HundredRenders()
    ensures RenderPercent(100) == "100%"
  {
    assert Decimal.NatToString(1) == "1";
    assert Decimal.NatToString(10) == "10";
  }

  /** A selection without any done task reports "0%". */
  lemma CompletionWithNoneDone(db: Store.Db, listId: int, status: Option<Status>, priority: Option<Priority>)
    requires forall t :: t in Selected(db, listId, status, priority) ==> t.status != Done
    ensures ListTasksWithCompletion(db, listId, status, priority).completion == "0%"
  {
    assert DoneTasks(Selected(db, listId, status, priority)) == {};
    CompletionIsRenderedFigure(db, listId, status, priority);
  }

  /** One done task out of four is reported as "25%". */
  lemma OneOfFourIsTwentyFive()
    ensures RenderPercent(Percent(1, 4)) == "25%"
  {
    assert Decimal.NatToString(25) == "25" by {
      assert Decimal.NatToString(2) == "2";
    }
  }

  /** The integer figure is the exact ratio of the domain object rounded down. */
  lemma FigureIsFloorOfRatio(done: nat, total: nat)
    requires 0 < total && done <= total
    ensures (Percent(done, total) as real) <= Domain.Ratio(done, total) < (Percent(done, total) + 1) as real
  {
    var p := Percent(done, total);
    MulToReal(p, total);
    MulToReal(p + 1, total);
    MulToReal(100, done);
    FloorBetween(p as real, Domain.Ratio(done, total), done as real, total as real);
  }

  lemma FloorBetween(p: real, r: real, d: real, n: real)
    requires n > 0.0 && r * n == 100.0 * d
    requires p * n <= 100.0 * d < (p + 1.0) * n
    ensures p <= r < p + 1.0
  {
    ScaleCancelLe(p, r, n);
    ScaleCancelLt(r, p + 1.0, n);
  }

  lemma {:induction false} MulToReal(a: nat, b: nat)
    ensures ((a * b) as real) == (a as real) * (b as real)
  {
    if b > 0 {
      MulToReal(a, b - 1);
      assert a * b == a * (b - 1) + a;
      assert (a as real) * (b as real) == (a as real) * ((b - 1) as real) + (a as real);
    }
  }

  lemma ScaleCancelLe(a: real, b: real, n: real)
    requires n > 0.0 && a * n <= b * n
    ensures a <= b
  {
  }

  lemma ScaleCancelLt(a: real, b: real, n: real)
    requires n > 0.0 && a * n < b * n
    ensures a < b
  {
  }

  /** `list_tasks_with_completion` as written: it looks up `TaskStatus.DONE`, a member the schema enum
      does not have, so every non-empty selection raises. */
  function ListTasksWithCompletionAsWritten(db: Store.Db, listId: int, status: Option<Status>, priority: Option<Priority>)
    : (r: Result<TaskListFilteredResponse>)
    ensures r.Ok? <==> Selected(db, listId, status, priority) == {}
    ensures r.Ok? ==> r.value == ListTasksWithCompletion(db, listId, status, priority)
    ensures r.Err? ==> r.error == AttributeError("DONE")
  {
    var tasks := Selected(db, listId, status, priority);
    if tasks == {} then
      Ok(TaskListFilteredResponse({}, RenderPercent(0)))
    else
      Err(AttributeError("DONE"))
  }

  /** A list with a single pending task is enough to make the as-written query raise. */
  lemma AsWrittenRaisesOnOneTask()
    ensures var db := Store.CreateTask(Store.CreateList(Store.EmptyDb, "home").db, 1, "wash", None, None, None).db;
      ListTasksWithCompletionAsWritten(db, 1, None, None).Err?
  {
    var db0 := Store.CreateList(Store.EmptyDb, "home").db;
    var step := Store.CreateTask(db0, 1, "wash", None, None, None);
    assert step.value in Selected(step.db, 1, None, None);
  }

  // ---------------------------------------------------------------------------------------
  // TaskUseCase

  /** `create_task`: one new task with the request's fields under the given list id, and a fresh task id.
      The list is not looked up, so the id is stored even when no such list exists. */
  function CreateTask(db: Store.Db, listId: int, data: TaskCreate): (r: Store.Step<TaskOut>)
    ensures r.value.id !in db.tasks
    ensures r.value.listId == listId
    ensures r.value.title == data.title && r.value.description == data.description
    ensures r.value.status == data.status && r.value.priority == data.priority
    ensures r.db.tasks.Keys == db.tasks.Keys + {r.value.id}
    ensures ToTaskOut(r.db.tasks[r.value.id]) == r.value
    ensures forall k :: k in db.tasks ==> r.db.tasks[k] == db.tasks[k]
    ensures r.db.lists == db.lists && r.db.users == db.users
  {
    var created := Store.CreateTask(db, listId, data.title, data.description, Some(data.status), Some(data.priority));
    Store.Step(created.db, ToTaskOut(created.value))
  }

  /** The value a partial update leaves in a field: the supplied one, or the old one when absent. */
  function Patched<T>(update: Option<T>, current: T): T {
    if update.Some? then update.value else current
  }

  /** `update_task`: each of title, description, status and priority is overwritten exactly when the
      request supplies it (an empty title counts as supplied); the id and list id never change.
      A missing task is NotFound and leaves the database alone. */
  function UpdateTask(db: Store.Db, id: int, data: TaskUpdate): (r: Store.Step<Result<TaskOut>>)
    requires Store.Keyed(db)
    ensures r.value.Err? <==> id !in db.tasks
    ensures r.value.Err? ==> r.value.error == NotFound && r.db == db
    ensures r.value.Ok? ==>
      var before := db.tasks[id];
      var out := r.value.value;
      && out.id == id && out.listId == before.listId
      && (data.title.Some? ==> out.title == data.title.value)
      && (data.title.None? ==> out.title == before.title)
      && (data.description.Some? ==> out.description == data.description)
      && (data.description.None? ==> out.description == before.description)
      && (data.status.Some? ==> out.status == data.status.value)
      && (data.status.None? ==> out.status == before.status)
      && (data.priority.Some? ==> out.priority == data.priority.value)
      && (data.priority.None? ==> out.priority == before.priority)
    ensures r.value.Ok? ==>
      && r.db.tasks.Keys == db.tasks.Keys
      && ToTaskOut(r.db.tasks[id]) == r.value.value
      && (forall k :: k in db.tasks && k != id ==> r.db.tasks[k] == db.tasks[k])
      && r.db.lists == db.lists && r.db.users == db.users
  {
    match Store.GetTask(db, id)
    case None => Store.Step(db, Err(NotFound))
    case Some(task) =>
      var updated := task.(
        title := Patched(data.title, task.title),
        description := if data.description.Some? then data.description else task.description,
        status := Patched(data.status, task.status),
        priority := Patched(data.priority, task.priority));
      Store.Step(Store.PutTask(db, updated), Ok(ToTaskOut(updated)))
  }

  /** An update that supplies no field changes nothing and returns the task as it was. */
  lemma UpdateTaskWithNoFieldsIsNoOp(db: Store.Db, id: int)
    requires Store.Keyed(db) && id in db.tasks
    ensures UpdateTask(db, id, TaskUpdate(None, None, None, None))
         == Store.Step(db, Ok(ToTaskOut(db.tasks[id])))
  {
    assert db.tasks[id := db.tasks[id]] == db.tasks;
  }

  /** Unlike a list's name, an empty title is applied: `update_task` tests presence, not truthiness. */
  lemma EmptyTitleIsApplied(db: Store.Db, id: int)
    requires Store.Keyed(db) && id in db.tasks
    ensures UpdateTask(db, id, TaskUpdate(Some(""), None, None, None)).value.value.title == ""
  {
  }

  /** `delete_task`: exactly that task is gone; a missing id is a silent no-op. */
  function DeleteTask(db: Store.Db, id: int): (r: Store.Db)
    ensures Store.GetTask(r, id).None?
    ensures r.tasks.Keys == db.tasks.Keys - {id}
    ensures forall k :: k in r.tasks ==> r.tasks[k] == db.tasks[k]
    ensures r.lists == db.lists && r.users == db.users
    ensures id !in db.tasks ==> r == db
  {
    Store.DeleteTask(db, id)
  }

  /** `change_status`: the task takes the new status and keeps every other field; a missing task is
      NotFound and leaves the database alone. Any status may follow any other. */
  function ChangeStatus(db: Store.Db, id: int, newStatus: Status): (r: Store.Step<Result<TaskOut>>)
    requires Store.Keyed(db)
    ensures r.value.Err? <==> id !in db.tasks
    ensures r.value.Err? ==> r.value.error == NotFound && r.db == db
    ensures r.value.Ok? ==>
      && r.value.value.status == newStatus
      && r.value.value == ToTaskOut(db.tasks[id]).(status := newStatus)
      && r.db.tasks.Keys == db.tasks.Keys
      && ToTaskOut(r.db.tasks[id]) == r.value.value
      && (forall k :: k in db.tasks && k != id ==> r.db.tasks[k] == db.tasks[k])
      && r.db.lists == db.lists && r.db.users == db.users
    ensures Store.Keyed(r.db)
  {
    var step := Store.UpdateTaskStatus(db, id, newStatus);
    match step.value
    case None => Store.Step(step.db, Err(NotFound))
    case Some(task) => Store.Step(step.db, Ok(ToTaskOut(task)))
  }

  /** Changing to the same status twice gives the same state and answer as doing it once. */
  lemma ChangeStatusIdempotent(db: Store.Db, id: int, newStatus: Status)
    requires Store.Keyed(db)
    ensures var once := ChangeStatus(db, id, newStatus);
      ChangeStatus(once.db, id, newStatus) == once
  {
    var once := ChangeStatus(db, id, newStatus);
    if id in db.tasks {
      assert once.db.tasks[id := once.db.tasks[id]] == once.db.tasks;
    }
  }

  /** A status change is the partial update that supplies only the status. */
  lemma ChangeStatusIsStatusOnlyUpdate(db: Store.Db, id: int, newStatus: Status)
    requires Store.Keyed(db)
    ensures ChangeStatus(db, id, newStatus) == UpdateTask(db, id, TaskUpdate(None, None, Some(newStatus), None))
  {
  }

  /** The domain task a stored row stands for. */
  function ToDomain(t: Store.TaskRow): Domain.Task {
    Domain.Task(t.id, t.title, t.description, t.status, t.priority, t.listId)
  }

  /** Changing a stored task to done is the domain's `mark_done` on that task. */
  lemma ChangeStatusDoneIsMarkDone(db: Store.Db, id: int)
    requires Store.Keyed(db) && id in db.tasks
    ensures var r := ChangeStatus(db, id, Done);
      ToDomain(r.db.tasks[id]) == Domain.MarkDone(ToDomain(db.tasks[id]))
  {
  }
}
