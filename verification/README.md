# To-do service core in Dafny

A model of the task/list domain of a small to-do web service: task lists own tasks; tasks carry a
title, an optional description, a status (pending, in progress, done) and a priority (low, medium,
high). The model covers the use-case layer (`TaskListUseCase`, `TaskUseCase`), the two repositories
over the relational tables, the table mapping (cascade, column defaults, nullability, the unique
username), the request/response schemas with their closed enumerations and defaults, and the plain
domain objects (`Task.mark_done`, `TaskList.add_task`, `TaskList.completion_percentage`).

The database session is replaced by an immutable value `Store.Db`: one map per table from primary
key to row. Every write is a pure function returning the new database (and, where the source returns
something, a `Store.Step` pairing the two). Errors the source raises become `Wrappers.Result` values.

Modules, one per source component:

- `Wrappers` (wrappers.dfy): `Option`, `Result` and the error kinds.
- `Enums` (enums.dfy): `Status` and `Priority` and their wire strings, with parsing.
- `Decimal` (decimal.dfy): decimal rendering of a natural number and reading it back, for `"<n>%"`.
- `Domain` (domain.dfy): domain/models.py.
- `Schemas` (schemas.dfy): application/schemas.py. Each schema is a validator from the fields of a body
  (`map<string, Value>`, a missing key meaning "not supplied") to a typed record.
- `Store` (store.dfy): infrastructure/db/models.py and infrastructure/db/repositories.py.
- `UseCases` (use_cases.dfy): application/use_cases/task_use_cases.py.

The model follows the code, including where the source's own documentation promises more:
`create_list` accepts an empty name. `create_task` does not check that the list exists, so orphan
tasks are possible (see `Store.OrphanTaskPossible`), although the route docstring promises a 404 for
a missing list (infrastructure/api/task_routes.py:168-169). Deleting a missing list or task is a
silent no-op, although the route docstrings promise a 404 (infrastructure/api/task_routes.py:113-114,
249-250). `update_list` tests the name for truthiness while `update_task` tests each field for
presence. No title length or blankness check exists, although
test/unit/application/schemas/test_schemas.py:24-35 expects one.

New keys follow SQLite's rule for an integer primary key: one above the largest key in the table, or
1 in an empty table (`Store.NextId`). `Store.Keyed` (every row sits under its own key) is the
primary-key invariant every real table satisfies; the operations that return a row's id require it.

## Model

| member | source | states |
|---|---|---|
| Enums.ParseStatus | application/schemas.py:6-9 | exactly the three wire strings parse, each to the status whose name it is |
| Enums.ParsePriority | application/schemas.py:12-15 | exactly "low", "medium", "high" parse, each to the priority whose name it is |
| Enums.StatusRoundTrip | test/unit/infrastucture/db/models/test_mapping_models.py:54-56 | parsing a rendered status gives back that status |
| Enums.PriorityRoundTrip | test/unit/infrastucture/db/models/test_mapping_models.py:58-62 | parsing a rendered priority gives back that priority |
| Decimal.NatToString | application/use_cases/task_use_cases.py:65 | the rendered figure is non-empty, all digits, with a leading zero only for 0 |
| Decimal.ParseNatToString | application/use_cases/task_use_cases.py:65 | reading back a rendered number gives the number |
| Domain.MarkDone | domain/models.py:31-32 | the task becomes done and every other field is unchanged |
| Domain.MarkDoneIdempotent | domain/models.py:31-32 | marking done twice is the same as once |
| Domain.NewTaskList | domain/models.py:36-39 | a list built without tasks has the empty task sequence; given tasks are kept |
| Domain.AddTask | domain/models.py:41-42 | one more task, the new one last, the earlier prefix unchanged, id and name kept |
| Domain.CountDone | domain/models.py:47 | the count is at most the length, equals it iff all are done, is 0 iff none is |
| Domain.CountDoneAppend | domain/models.py:47 | the done count of two sequences joined is the sum of their done counts |
| Domain.AddTaskCountsDone | domain/models.py:41-47 | adding a task raises the done count by one iff the added task is done |
| Domain.Ratio | domain/models.py:48 | done out of total as an exact percentage in [0, 100] with ratio times total equal to 100 times done |
| Domain.CompletionPercentage | domain/models.py:44-48 | 0 for no tasks, otherwise 100 times done over length exactly, always within [0, 100] |
| Domain.CompletionExtremes | domain/models.py:44-48 | the percentage is 100 iff there are tasks and all are done, and 0 iff none is done |
| Domain.MarkDoneAt | domain/models.py:31-32 | marking the i-th task done changes only that task's status |
| Domain.CountDoneMarkDone | domain/models.py:31-47 | marking a task done raises the done count by one iff it was not done |
| Domain.MarkDoneNeverDecreasesCompletion | domain/models.py:31-48 | marking any task done never lowers the completion percentage |
| Schemas.RequiredStr | application/schemas.py:20 | a plain `str` field is accepted iff supplied as a string, and yields that string |
| Schemas.RequiredInt | application/schemas.py:34 | a plain `int` field is accepted iff supplied as an integer, and yields that integer |
| Schemas.NullableStr | application/schemas.py:36 | an `Optional[str]` field without a default must be supplied, as a string (kept) or null (absent) |
| Schemas.OptionalStr | application/schemas.py:21 | an `Optional[str] = None` field may be missing or null (both absent); a supplied string is kept |
| Schemas.StatusOf | application/schemas.py:6-9 | a status field is accepted iff it is one of the three wire strings |
| Schemas.PriorityOf | application/schemas.py:12-15 | a priority field is accepted iff it is the string low, medium or high |
| Schemas.ValidateTaskCreate | application/schemas.py:19-23 | title required; description defaults to absent, status to pending, priority to medium; supplied values kept, a null description absent |
| Schemas.ValidateTaskUpdate | application/schemas.py:26-30 | every field optional; a field is present in the result iff supplied as a non-null value |
| Schemas.EmptyTaskUpdate | application/schemas.py:26-30 | an empty update body yields an update with every field absent |
| Schemas.ValidateTaskOut | application/schemas.py:33-39 | accepted iff id, title, status, priority and list id are valid and description is given as a string or null; every accepted value is kept |
| Schemas.TaskOutRejectsBadPriority | test/unit/application/schemas/test_schemas.py:38-58 | a priority of 2, "invalid" or null is refused with a priority error |
| Schemas.ValidateTaskListCreate | application/schemas.py:47-48 | the name is a required string; an empty one is accepted |
| Schemas.ValidateTaskListUpdate | application/schemas.py:51-52 | the name must be supplied but may be null |
| Schemas.ValidateTaskListOut | application/schemas.py:55-57 | accepted iff id is an integer and name a string, both kept |
| Schemas.ValidateToken | application/schemas.py:77-79 | an access token is required and the token type defaults to "bearer" |
| Store.NextId | infrastructure/db/models.py:25 | a new key is unused and above every key in use, 1 in an empty table |
| Store.CreateList | infrastructure/db/repositories.py:10-15 | one new list with the given name under a fresh key; every other row unchanged |
| Store.GetList | infrastructure/db/repositories.py:17-18 | the row under that key, absent iff there is none |
| Store.DeleteList | infrastructure/db/repositories.py:20-24 | the list and every task whose list id is it are removed, nothing else; a missing key changes nothing |
| Store.DeleteListCascades | infrastructure/db/models.py:28-30 | after deletion neither the list nor any task it owned can be found |
| Store.ListTasks | infrastructure/db/models.py:28-30 | a list's tasks are exactly the stored tasks carrying its id |
| Store.TaskListOf | infrastructure/db/models.py:43-46 | a task's list is the list under its list id, absent iff there is none |
| Store.RelationshipsMutual | infrastructure/db/models.py:28-46 | a task is among a list's tasks iff that list is the task's list |
| Store.CreateTask | infrastructure/db/repositories.py:31-42 | one new task under a fresh key with the given fields and list id; missing status and priority become pending and medium |
| Store.GetTask | infrastructure/db/repositories.py:44-45 | the row under that key, absent iff there is none |
| Store.UpdateTaskStatus | infrastructure/db/repositories.py:47-53 | an existing task changes only its status; a missing key returns absent with the database unchanged |
| Store.PutTask | infrastructure/db/repositories.py:50-51 | writing a changed task back stores it under its key and leaves every other row and table alone |
| Store.DeleteTask | infrastructure/db/repositories.py:55-59 | exactly that task is removed; a missing key changes nothing |
| Store.GetTasksByList | infrastructure/db/repositories.py:61-67 | the query narrowed filter by filter returns exactly the tasks of the list matching every filter given |
| Store.FiltersIntersect | infrastructure/db/repositories.py:61-67 | both filters together give the intersection of the single-filter results |
| Store.FilterNarrows | infrastructure/db/repositories.py:61-67 | a filtered result is a subset of the unfiltered one, which is the list's tasks |
| Store.DeleteListKeepsTasksAttached | infrastructure/db/models.py:28-30 | if every task references a live list, it still holds after deleting a list |
| Store.DeleteTaskKeepsTasksAttached | infrastructure/db/repositories.py:55-59 | deleting a task keeps every remaining task attached to a live list |
| Store.CreateListKeepsTasksAttached | infrastructure/db/repositories.py:10-15 | creating a list keeps every task attached to a live list |
| Store.CreateTaskAttachedIff | infrastructure/db/repositories.py:31-42 | after creating a task every task is attached iff the given list exists |
| Store.OrphanTaskPossible | infrastructure/db/repositories.py:31-42 | a task can be created under a list that does not exist |
| Store.InsertUser | infrastructure/db/models.py:53 | inserting a taken username is a conflict; otherwise one new user under a fresh key and usernames stay unique |
| UseCases.TaskRowValidates | application/use_cases/task_use_cases.py:81 | `TaskOut.model_validate` of any stored task row succeeds and yields the row's fields |
| UseCases.ListRowValidates | application/use_cases/task_use_cases.py:21 | `TaskListOut.model_validate` of any stored list row succeeds and yields its id and name |
| UseCases.CreateList | application/use_cases/task_use_cases.py:19-21 | exactly one list is added, with the given name and a fresh id; existing lists and tasks unchanged |
| UseCases.UpdateList | application/use_cases/task_use_cases.py:23-29 | a truthy name replaces the old one, None or "" keeps it, the id never changes; a missing list is NotFound with the database unchanged |
| UseCases.UpdateListFalsyNameIsNoOp | application/use_cases/task_use_cases.py:25-26 | a falsy name leaves the database as it was |
| UseCases.GetAllLists | application/use_cases/task_use_cases.py:31-32 | every stored list appears, and every listed entry is a stored list with its name |
| UseCases.GetListsAsWritten | application/use_cases/task_use_cases.py:31-32 | the call as written always fails on the missing repository method |
| UseCases.DeleteList | application/use_cases/task_use_cases.py:34-35 | the list is gone and so are exactly its tasks; other lists, other tasks and users are kept; a missing list changes nothing |
| UseCases.DoneTasks | application/use_cases/task_use_cases.py:55-61 | exactly the done tasks of the selection, never more than the selection |
| UseCases.Percent | application/use_cases/task_use_cases.py:62 | 0 for an empty set, otherwise the floor of 100 times done over total; within [0, 100]; 100 iff all done |
| UseCases.RenderPercent | application/use_cases/task_use_cases.py:65 | the completion string is digits then '%', with no leading zero except "0%", and the digits read back as the figure |
| UseCases.ListTasksWithCompletion | application/use_cases/task_use_cases.py:53-66 | exactly the stored tasks of the list that match the filters, and nothing else; completion "<p>%" without a leading zero, where p is the floored done share of that selection |
| UseCases.CompletionOfEmptySelection | application/use_cases/task_use_cases.py:62 | an empty selection reports "0%" |
| UseCases.CompletionOfAllDone | application/use_cases/task_use_cases.py:55-62 | filtering on done with a non-empty result reports "100%" |
| UseCases.CompletionWithNoneDone | application/use_cases/task_use_cases.py:55-62 | a selection with no done task reports "0%" |
| UseCases.HundredRenders | application/use_cases/task_use_cases.py:65 | the figure 100 renders as "100%" |
| UseCases.OneOfFourIsTwentyFive | application/use_cases/task_use_cases.py:62-65 | one done task out of four renders as "25%" |
| UseCases.FigureIsFloorOfRatio | application/use_cases/task_use_cases.py:62 | the integer figure is the domain's exact ratio rounded down |
| UseCases.ListTasksWithCompletionAsWritten | application/use_cases/task_use_cases.py:55-61 | as written the query succeeds iff the selection is empty, then agreeing with the corrected one |
| UseCases.AsWrittenRaisesOnOneTask | application/use_cases/task_use_cases.py:59 | one pending task in the list makes the as-written query fail |
| UseCases.CreateTask | application/use_cases/task_use_cases.py:73-81 | one new task with the request's fields under the given list id and a fresh id, no list check, nothing else changes |
| UseCases.UpdateTask | application/use_cases/task_use_cases.py:83-95 | each field is overwritten iff supplied, id and list id kept, other tasks unchanged; a missing task is NotFound with the database unchanged |
| UseCases.UpdateTaskWithNoFieldsIsNoOp | application/use_cases/task_use_cases.py:83-95 | an update supplying no field leaves the database unchanged and returns the task as it was |
| UseCases.EmptyTitleIsApplied | application/use_cases/task_use_cases.py:85-86 | an explicit empty title is applied |
| UseCases.DeleteTask | application/use_cases/task_use_cases.py:97-98 | exactly that task is gone, no task is added, other tasks, lists and users kept; a missing id changes nothing |
| UseCases.ChangeStatus | application/use_cases/task_use_cases.py:100-102 | the status becomes the new one and every other field and task is unchanged; a missing task is NotFound with the database unchanged |
| UseCases.ChangeStatusIdempotent | application/use_cases/task_use_cases.py:100-102 | changing to the same status twice gives the same state and answer as once |
| UseCases.ChangeStatusIsStatusOnlyUpdate | application/use_cases/task_use_cases.py:100-102 | a status change equals the partial update supplying only the status |
| UseCases.ChangeStatusDoneIsMarkDone | application/use_cases/task_use_cases.py:100-102 | changing a stored task to done is the domain's mark-done on it |

## Left out

- HTTP routing, dependency injection and authentication enforcement (infrastructure/api/task_routes.py, infrastructure/api/user_routes.py, main.py): transport plumbing.
- The route for the filtered query passes `priority` as a raw string, so an empty string filters nothing and an unknown one matches no task; the model's priority filter is the typed enumeration.
- JWT issuance and validation (utils/jwt_handler.py): cryptography, wall-clock expiry and environment variables.
- Password hashing and verification: `Store.InsertUser` takes the hash as an opaque string parameter; registration and login flows are not modelled beyond the unique username constraint. The `UserCreate`, `UserLogin` and `CreatedUser` schemas belong to that flow.
- A missing id in `update_list`, `update_task` or `change_status`: the source dereferences the `None` the lookup returns, raising `AttributeError` (or, in `update_list` with a falsy name and in `update_task` with no field supplied, an error from `refresh(None)`; in `change_status`, a pydantic `ValidationError` from `TaskOut.model_validate(None)`), which ends as an HTTP 500. The model reports each of these as `Err(NotFound)` with the database unchanged, and does not distinguish the exception types.
- Session, commit, refresh and transaction semantics: replaced by a pure map store, one write per call.
- Floating point: the source computes the figure as `int((done / total) * 100)` in doubles, which can land one below the exact floor (29 done of 100 gives 28). The model computes the exact `(done * 100) div total`, the evidently intended reading. `Domain.CompletionPercentage` is an exact `real`, not a double.
- Ordering of query results: there is no ordering clause, so results are sets and no order is claimed.
- Schema validation reports only the first failing field (pydantic reports all), and does not model lax coercions such as a numeric string accepted for an `int` field.
- No title length or blankness check exists in the schemas although the tests expect one; the `String(50)`/`String(100)` column lengths are not enforced by SQLite; neither is modelled as a guarantee. NOT NULL columns are encoded in the row types (`title: string`, `description: Option<string>`).
- SQLite's random key choice once the largest key reaches 2^63-1: keys are unbounded integers.
- Route test test/unit/infrastucture/api/task_routers/test_task_routers.py:47-49 expects list names its mock never returns; it states nothing about the core.

## Findings

| source | as written | input that shows it | evidently intended | confidence | as-written member | corrected member |
|---|---|---|---|---|---|---|
| application/use_cases/task_use_cases.py:59 | compares each status with `TaskStatus.DONE.value`, but the imported schema enumeration only has lower-case members, so the lookup raises | a list holding one pending task, queried without filters | count the tasks whose status is `done` | high, not executed | UseCases.ListTasksWithCompletionAsWritten | UseCases.ListTasksWithCompletion |
| application/use_cases/task_use_cases.py:32 | calls `get_all_lists`, which the list repository does not define, so the call raises | any call | return every stored list | high, not executed | UseCases.GetListsAsWritten | UseCases.GetAllLists |
