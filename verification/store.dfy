/**
 * The database tables and the two repositories over them. The ORM session is replaced by an
 * immutable value: each table is a map from primary key to row, and every write returns the
 * new database.
 */
module Store {
  import opened Wrappers
  import opened Enums

  datatype ListRow = ListRow(id: int, name: string)

  /** A task row; `description` is the only nullable text column. */
  datatype TaskRow = TaskRow(
    id: int,
    title: string,
    description: Option<string>,
    status: Status,
    priority: Priority,
    listId: int)

  datatype UserRow = UserRow(id: int, username: string, passwordHash: string)

  datatype Db = Db(lists: map<int, ListRow>, tasks: map<int, TaskRow>, users: map<int, UserRow>)

  /** A write's new database together with what the write returns. */
  datatype Step<+T> = Step(db: Db, value: T)

  const EmptyDb := Db(map[], map[], map[])

  /** Column defaults of the task table, applied when no value is given. */
  const DefaultStatus: Status := Pending
  const DefaultPriority: Priority := Medium

  /** Every row sits under its own primary key. */
  predicate Keyed(db: Db) {
    && (forall k :: k in db.lists ==> db.lists[k].id == k)
    && (forall k :: k in db.tasks ==> db.tasks[k].id == k)
    && (forall k :: k in db.users ==> db.users[k].id == k)
  }

  /** The unique constraint on `users.username`. */
  predicate UniqueUsernames(db: Db) {
    forall j, k :: j in db.users && k in db.users && db.users[j].username == db.users[k].username ==> j == k
  }

  predicate Valid(db: Db) {
    Keyed(db) && UniqueUsernames(db)
  }

  /** Every task references a list that exists. */
  predicate TasksHaveLists(db: Db) {
    forall k :: k in db.tasks ==> db.tasks[k].listId in db.lists
  }

  // ---------------------------------------------------------------------------------------
  // Primary keys

  lemma {:induction false} HasMaximum(ids: set<int>)
    requires ids != {}
    ensures exists m :: m in ids && forall i :: i in ids ==> i <= m
    decreases |ids|
  {
    var x := Pick(ids);
    var rest := ids - {x};
    if rest == {} {
      forall i | i in ids ensures i <= x {
        assert i !in rest;
      }
    } else {
      HasMaximum(rest);
      var m :| m in rest && forall i :: i in rest ==> i <= m;
      var top := if x <= m then m else x;
      forall i | i in ids ensures i <= top {
        if i != x {
          assert i in rest;
        }
      }
      assert top in ids;
    }
  }

  /** An element of a non-empty set. */
  lemma Pick<T>(s: set<T>) returns (x: T)
    requires s != {}
    ensures x in s
  {
    if forall y :: y !in s {
      assert false;
    }
    x :| x in s;
  }

  function MaxId(ids: set<int>): (m: int)
    requires ids != {}
    ensures m in ids && forall i :: i in ids ==> i <= m
  {
    HasMaximum(ids);
    var m :| m in ids && forall i :: i in ids ==> i <= m;
    m
  }

  /** The key SQLite gives a new row: one above the largest key in use, or 1 in an empty table. */
  function NextId(ids: set<int>): (r: int)
    ensures r !in ids
    ensures forall i :: i in ids ==> i < r
    ensures ids == {} ==> r == 1
    ensures ids != {} ==> r - 1 in ids
  {
    if ids == {} then 1 else MaxId(ids) + 1
  }

  // ---------------------------------------------------------------------------------------
  // TaskListRepository

  /** `create_list`: one new list with the given name under a fresh key; nothing else changes. */
  function CreateList(db: Db, name: string): (r: Step<ListRow>)
    ensures r.value.name == name
    ensures r.value.id !in db.lists
    ensures r.db.lists.Keys == db.lists.Keys + {r.value.id}
    ensures r.db.lists[r.value.id] == r.value
    ensures forall k :: k in db.lists ==> r.db.lists[k] == db.lists[k]
    ensures r.db.tasks == db.tasks && r.db.users == db.users
    ensures Valid(db) ==> Valid(r.db)
  {
    var row := ListRow(NextId(db.lists.Keys), name);
    Step(db.(lists := db.lists[row.id := row]), row)
  }

  /** `get_list`: the list under that key, if any. */
  function GetList(db: Db, id: int): (r: Option<ListRow>)
    ensures r.Some? <==> id in db.lists
    ensures r.Some? ==> r.value == db.lists[id]
    ensures Keyed(db) && r.Some? ==> r.value.id == id
  {
    if id in db.lists then Some(db.lists[id]) else None
  }

  /** The tasks a list owns through its `tasks` relationship. */
  function ListTasks(db: Db, listId: int): (r: set<TaskRow>)
    ensures forall t :: t in r ==> t.listId == listId && t in db.tasks.Values
    ensures forall k :: k in db.tasks && db.tasks[k].listId == listId ==> db.tasks[k] in r
  {
    set t | t in db.tasks.Values && t.listId == listId
  }

  /** The list a task belongs to through its `task_list` relationship. */
  function TaskListOf(db: Db, t: TaskRow): (r: Option<ListRow>)
    ensures r.Some? <==> t.listId in db.lists
    ensures r.Some? ==> r.value == db.lists[t.listId]
  {
    GetList(db, t.listId)
  }

  /** The two relationships are mutual: a task is among a list's tasks exactly when that list is the task's list. */
  lemma RelationshipsMutual(db: Db, l: ListRow, t: TaskRow)
    requires Keyed(db) && l in db.lists.Values && t in db.tasks.Values
    ensures t in ListTasks(db, l.id) <==> TaskListOf(db, t) == Some(l)
  {
    if forall k :: k in db.lists ==> db.lists[k] != l {
      assert false;
    }
    var k :| k in db.lists && db.lists[k] == l;
    assert l.id == k;
  }

  /** `delete_list`: the list and, by cascade, every task it owns; a missing key is a no-op. */
  function DeleteList(db: Db, id: int): (r: Db)
    ensures id !in r.lists
    ensures r.lists.Keys == db.lists.Keys - {id}
    ensures forall k :: k in r.lists ==> r.lists[k] == db.lists[k]
    ensures forall k :: k in r.tasks <==> k in db.tasks && (id in db.lists ==> db.tasks[k].listId != id)
    ensures forall k :: k in r.tasks ==> r.tasks[k] == db.tasks[k]
    ensures r.users == db.users
    ensures id !in db.lists ==> r == db
    ensures Valid(db) ==> Valid(r)
  {
    match GetList(db, id)
    case None => db
    case Some(_) =>
      var remaining := map k | k in db.tasks && db.tasks[k].listId != id :: db.tasks[k];
      db.(lists := db.lists - {id}, tasks := remaining)
  }

  /** After `delete_list`, neither the list nor any task it owned can be found. */
  lemma DeleteListCascades(db: Db, id: int)
    requires id in db.lists
    ensures GetList(DeleteList(db, id), id).None?
    ensures ListTasks(DeleteList(db, id), id) == {}
  {
  }

  // ---------------------------------------------------------------------------------------
  // TaskRepository

  /** `create_task`: one new task under a fresh key; missing status/priority take the column defaults.
      The list key is stored as given, whether or not that list exists. */
  function CreateTask(db: Db, listId: int, title: string, description: Option<string>,
                      status: Option<Status>, priority: Option<Priority>): (r: Step<TaskRow>)
    ensures r.value.id !in db.tasks
    ensures r.value.listId == listId && r.value.title == title && r.value.description == description
    ensures status.Some? ==> r.value.status == status.value
    ensures status.None? ==> r.value.status == Pending
    ensures priority.Some? ==> r.value.priority == priority.value
    ensures priority.None? ==> r.value.priority == Medium
    ensures r.db.tasks.Keys == db.tasks.Keys + {r.value.id}
    ensures r.db.tasks[r.value.id] == r.value
    ensures forall k :: k in db.tasks ==> r.db.tasks[k] == db.tasks[k]
    ensures r.db.lists == db.lists && r.db.users == db.users
    ensures Valid(db) ==> Valid(r.db)
  {
    var row := TaskRow(
      NextId(db.tasks.Keys), title, description,
      if status.Some? then status.value else DefaultStatus,
      if priority.Some? then priority.value else DefaultPriority,
      listId);
    Step(db.(tasks := db.tasks[row.id := row]), row)
  }

  /** `get_task`: the task under that key, if any. */
  function GetTask(db: Db, id: int): (r: Option<TaskRow>)
    ensures r.Some? <==> id in db.tasks
    ensures r.Some? ==> r.value == db.tasks[id]
    ensures Keyed(db) && r.Some? ==> r.value.id == id
  {
    if id in db.tasks then Some(db.tasks[id]) else None
  }

  /** Writes one task row back under its key, leaving every other row alone. */
  function PutTask(db: Db, t: TaskRow): (r: Db)
    ensures r.tasks.Keys == db.tasks.Keys + {t.id}
    ensures r.tasks[t.id] == t
    ensures forall k :: k in db.tasks && k != t.id ==> r.tasks[k] == db.tasks[k]
    ensures r.lists == db.lists && r.users == db.users
    ensures Valid(db) ==> Valid(r)
  {
    db.(tasks := db.tasks[t.id := t])
  }

  /** `update_task_status`: an existing task gets the new status and nothing else changes;
      a missing key returns nothing and leaves the database alone. */
  function UpdateTaskStatus(db: Db, id: int, newStatus: Status): (r: Step<Option<TaskRow>>)
    requires Keyed(db)
    ensures r.value.Some? <==> id in db.tasks
    ensures id !in db.tasks ==> r.db == db
    ensures id in db.tasks ==>
      && r.value.value.status == newStatus
      && r.value.value == db.tasks[id].(status := newStatus)
      && r.db.tasks.Keys == db.tasks.Keys
      && r.db.tasks[id] == r.value.value
      && (forall k :: k in db.tasks && k != id ==> r.db.tasks[k] == db.tasks[k])
      && r.db.lists == db.lists && r.db.users == db.users
    ensures Valid(db) ==> Valid(r.db)
  {
    match GetTask(db, id)
    case None => Step(db, None)
    case Some(task) =>
      var updated := task.(status := newStatus);
      Step(PutTask(db, updated), Some(updated))
  }

  /** `delete_task`: exactly that task goes; a missing key is a no-op. */
  function DeleteTask(db: Db, id: int): (r: Db)
    ensures r.tasks.Keys == db.tasks.Keys - {id}
    ensures forall k :: k in r.tasks ==> r.tasks[k] == db.tasks[k]
    ensures r.lists == db.lists && r.users == db.users
    ensures id !in db.tasks ==> r == db
    ensures Valid(db) ==> Valid(r)
  {
    match GetTask(db, id)
    case None => db
    case Some(_) => db.(tasks := db.tasks - {id})
  }

  predicate HasStatus(t: TaskRow, status: Option<Status>) {
    status.None? || t.status == status.value
  }

  predicate HasPriority(t: TaskRow, priority: Option<Priority>) {
    priority.None? || t.priority == priority.value
  }

  /** `get_tasks_by_list`: the query starts from the list's tasks and is narrowed by each filter
      given, one after the other. The result is exactly the matching tasks, in no stated order. */
  function GetTasksByList(db: Db, listId: int, status: Option<Status>, priority: Option<Priority>)
    : (r: set<TaskRow>)
    ensures forall t :: t in r <==>
      t in db.tasks.Values && t.listId == listId && HasStatus(t, status) && HasPriority(t, priority)
  {
    var query := ListTasks(db, listId);
    var query := if status.Some? then set t | t in query && t.status == status.value else query;
    var query := if priority.Some? then set t | t in query && t.priority == priority.value else query;
    query
  }

  /** Giving both filters yields the intersection of the two single-filter results. */
  lemma FiltersIntersect(db: Db, listId: int, status: Status, priority: Priority)
    ensures GetTasksByList(db, listId, Some(status), Some(priority))
         == GetTasksByList(db, listId, Some(status), None) * GetTasksByList(db, listId, None, Some(priority))
  {
  }

  /** A filter never adds results: every filtered answer lies within the unfiltered one. */
  lemma FilterNarrows(db: Db, listId: int, status: Option<Status>, priority: Option<Priority>)
    ensures GetTasksByList(db, listId, status, priority) <= GetTasksByList(db, listId, None, None)
    ensures GetTasksByList(db, listId, None, None) == ListTasks(db, listId)
  {
  }

  // ---------------------------------------------------------------------------------------
  // Referential integrity

  /** Deleting a list keeps every remaining task attached to a live list: the cascade is what makes this hold. */
  lemma DeleteListKeepsTasksAttached(db: Db, id: int)
    requires TasksHaveLists(db)
    ensures TasksHaveLists(DeleteList(db, id))
  {
  }

  lemma DeleteTaskKeepsTasksAttached(db: Db, id: int)
    requires TasksHaveLists(db)
    ensures TasksHaveLists(DeleteTask(db, id))
  {
  }

  lemma CreateListKeepsTasksAttached(db: Db, name: string)
    requires TasksHaveLists(db)
    ensures TasksHaveLists(CreateList(db, name).db)
  {
  }

  /** A new task stays attached exactly when its list exists: `create_task` does not check. */
  lemma CreateTaskAttachedIff(db: Db, listId: int, title: string, description: Option<string>,
                              status: Option<Status>, priority: Option<Priority>)
    requires TasksHaveLists(db)
    ensures TasksHaveLists(CreateTask(db, listId, title, description, status, priority).db)
        <==> listId in db.lists
  {
    var r := CreateTask(db, listId, title, description, status, priority);
    if TasksHaveLists(r.db) {
      assert r.db.tasks[r.value.id].listId in r.db.lists;
    }
  }

  /** So an orphan task is possible: a task under list 7 in an empty database. */
  lemma OrphanTaskPossible()
    ensures var r := CreateTask(EmptyDb, 7, "t", None, None, None);
            r.value.id in r.db.tasks && !TasksHaveLists(r.db)
  {
    var r := CreateTask(EmptyDb, 7, "t", None, None, None);
    assert r.db.tasks[r.value.id].listId == 7;
  }

  // ---------------------------------------------------------------------------------------
  // Users

  /** Inserting a user row under the unique username constraint: a taken name is a conflict. */
  function InsertUser(db: Db, username: string, passwordHash: string): (r: Result<Step<UserRow>>)
    requires Valid(db)
    ensures r.Err? <==> exists k :: k in db.users && db.users[k].username == username
    ensures r.Err? ==> r.error == Conflict
    ensures r.Ok? ==> r.value.value.username == username && r.value.value.passwordHash == passwordHash
    ensures r.Ok? ==> r.value.value.id !in db.users
    ensures r.Ok? ==> r.value.db.lists == db.lists && r.value.db.tasks == db.tasks
    ensures r.Ok? ==> r.value.db.users == db.users[r.value.value.id := r.value.value]
    ensures r.Ok? ==> Valid(r.value.db)
  {
    if exists k :: k in db.users && db.users[k].username == username then Err(Conflict)
    else
      var row := UserRow(NextId(db.users.Keys), username, passwordHash);
      Ok(Step(db.(users := db.users[row.id := row]), row))
  }
}
