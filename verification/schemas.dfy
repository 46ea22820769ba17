/**
 * The request and response schemas of the service. Each schema is a validator from the
 * fields of a request body (a key that is missing was not supplied) to a typed record.
 */
module Schemas {
  import opened Wrappers
  import opened Enums

  /** A field value as it arrives in a request body or from an ORM row. */
  datatype Value = Str(s: string) | Int(i: int) | Null

  type Fields = map<string, Value>

  datatype TaskCreate = TaskCreate(
    title: string,
    description: Option<string>,
    status: Status,
    priority: Priority)

  datatype TaskUpdate = TaskUpdate(
    title: Option<string>,
    description: Option<string>,
    status: Option<Status>,
    priority: Option<Priority>)

  datatype TaskOut = TaskOut(
    id: int,
    title: string,
    description: Option<string>,
    status: Status,
    priority: Priority,
    listId: int)

  datatype TaskListCreate = TaskListCreate(name: string)

  datatype TaskListUpdate = TaskListUpdate(name: Option<string>)

  datatype TaskListOut = TaskListOut(id: int, name: string)

  /** The filtered tasks of a list together with the rendered completion figure. */
  datatype TaskListFilteredResponse = TaskListFilteredResponse(tasks: set<TaskOut>, completion: string)

  datatype Token = Token(accessToken: string, tokenType: string)

  const BearerTokenType := "bearer"

  predicate IsStatusValue(v: Value) {
    v.Str? && ParseStatus(v.s).Some?
  }

  predicate IsPriorityValue(v: Value) {
    v.Str? && ParsePriority(v.s).Some?
  }

  /** A plain `str` field with no default: it must be supplied and be a string. */
  function RequiredStr(f: Fields, key: string): (r: Result<string>)
    ensures r.Ok? <==> key in f && f[key].Str?
    ensures r.Ok? ==> r.value == f[key].s
    ensures r.Err? ==> r.error == Invalid(key)
  {
    if key in f && f[key].Str? then Ok(f[key].s) else Err(Invalid(key))
  }

  /** A plain `int` field with no default. */
  function RequiredInt(f: Fields, key: string): (r: Result<int>)
    ensures r.Ok? <==> key in f && f[key].Int?
    ensures r.Ok? ==> r.value == f[key].i
    ensures r.Err? ==> r.error == Invalid(key)
  {
    if key in f && f[key].Int? then Ok(f[key].i) else Err(Invalid(key))
  }

  /** An `Optional[str]` field WITHOUT a default: it must be supplied, but may be null. */
  function NullableStr(f: Fields, key: string): (r: Result<Option<string>>)
    ensures r.Ok? <==> key in f && (f[key].Str? || f[key].Null?)
    ensures r.Ok? ==> (r.value.Some? <==> f[key].Str?)
    ensures r.Ok? && r.value.Some? ==> r.value.value == f[key].s
    ensures r.Err? ==> r.error == Invalid(key)
  {
    if key !in f then Err(Invalid(key))
    else match f[key]
      case Str(s) => Ok(Some(s))
      case Null => Ok(None)
      case Int(_) => Err(Invalid(key))
  }

  /** An `Optional[str] = None` field: missing and null both read as absent. */
  function OptionalStr(f: Fields, key: string): (r: Result<Option<string>>)
    ensures r.Ok? <==> key !in f || f[key].Str? || f[key].Null?
    ensures r.Ok? ==> (r.value.Some? <==> key in f && f[key].Str?)
    ensures r.Ok? && r.value.Some? ==> r.value.value == f[key].s
    ensures r.Err? ==> r.error == Invalid(key)
  {
    if key !in f then Ok(None) else NullableStr(f, key)
  }

  /** A `TaskStatus` value: only one of the three wire strings is accepted. */
  function StatusOf(v: Value, key: string): (r: Result<Status>)
    ensures r.Ok? <==> IsStatusValue(v)
    ensures r.Ok? ==> StatusName(r.value) == v.s
    ensures r.Err? ==> r.error == Invalid(key)
  {
    if v.Str? && ParseStatus(v.s).Some? then Ok(ParseStatus(v.s).value) else Err(Invalid(key))
  }

  /** A `TaskPriority` value: only "low", "medium" or "high"; numbers and null are refused. */
  function PriorityOf(v: Value, key: string): (r: Result<Priority>)
    ensures r.Ok? <==> v.Str? && v.s in {"low", "medium", "high"}
    ensures r.Ok? ==> PriorityName(r.value) == v.s
    ensures r.Err? ==> r.error == Invalid(key)
  {
    if v.Str? && ParsePriority(v.s).Some? then Ok(ParsePriority(v.s).value) else Err(Invalid(key))
  }

  /** `TaskCreate`: a title is required; description defaults to absent, status to pending, priority to medium. */
  function ValidateTaskCreate(f: Fields): (r: Result<TaskCreate>)
    ensures r.Ok? <==>
      && "title" in f && f["title"].Str?
      && ("description" !in f || f["description"].Str? || f["description"].Null?)
      && ("status" !in f || IsStatusValue(f["status"]))
      && ("priority" !in f || IsPriorityValue(f["priority"]))
    ensures r.Ok? ==> r.value.title == f["title"].s
    ensures r.Ok? && "description" !in f ==> r.value.description == None
    ensures r.Ok? && "description" in f ==>
      && (r.value.description.Some? <==> f["description"].Str?)
      && (f["description"].Str? ==> r.value.description.value == f["description"].s)
    ensures r.Ok? && "status" !in f ==> r.value.status == Pending
    ensures r.Ok? && "priority" !in f ==> r.value.priority == Medium
    ensures r.Ok? && "status" in f ==> StatusName(r.value.status) == f["status"].s
    ensures r.Ok? && "priority" in f ==> PriorityName(r.value.priority) == f["priority"].s
  {
    var title :- RequiredStr(f, "title");
    var description :- OptionalStr(f, "description");
    var status :- if "status" in f then StatusOf(f["status"], "status") else Ok(Pending);
    var priority :- if "priority" in f then PriorityOf(f["priority"], "priority") else Ok(Medium);
    Ok(TaskCreate(title, description, status, priority))
  }

  /** `TaskUpdate`: every field is optional, and a missing or null field is absent. */
  function ValidateTaskUpdate(f: Fields): (r: Result<TaskUpdate>)
    ensures r.Ok? <==>
      && ("title" !in f || f["title"].Str? || f["title"].Null?)
      && ("description" !in f || f["description"].Str? || f["description"].Null?)
      && ("status" !in f || f["status"].Null? || IsStatusValue(f["status"]))
      && ("priority" !in f || f["priority"].Null? || IsPriorityValue(f["priority"]))
    ensures r.Ok? ==> (r.value.title.Some? <==> "title" in f && f["title"].Str?)
    ensures r.Ok? ==> (r.value.description.Some? <==> "description" in f && f["description"].Str?)
    ensures r.Ok? ==> (r.value.status.Some? <==> "status" in f && f["status"].Str?)
    ensures r.Ok? ==> (r.value.priority.Some? <==> "priority" in f && f["priority"].Str?)
    ensures r.Ok? && r.value.title.Some? ==> r.value.title.value == f["title"].s
    ensures r.Ok? && r.value.description.Some? ==> r.value.description.value == f["description"].s
    ensures r.Ok? && r.value.status.Some? ==> StatusName(r.value.status.value) == f["status"].s
    ensures r.Ok? && r.value.priority.Some? ==> PriorityName(r.value.priority.value) == f["priority"].s
  {
    var title :- OptionalStr(f, "title");
    var description :- OptionalStr(f, "description");
    var status :-
      if "status" !in f || f["status"].Null? then Ok(None)
      else var s :- StatusOf(f["status"], "status"); Ok(Some(s));
    var priority :-
      if "priority" !in f || f["priority"].Null? then Ok(None)
      else var p :- PriorityOf(f["priority"], "priority"); Ok(Some(p));
    Ok(TaskUpdate(title, description, status, priority))
  }

  /** An empty update body is accepted and supplies no field at all. */
  lemma EmptyTaskUpdate()
    ensures ValidateTaskUpdate(map[]) == Ok(TaskUpdate(None, None, None, None))
  {
  }

  /** `TaskOut`: id, title, status, priority and list id are required; description must be given but may be null. */
  function ValidateTaskOut(f: Fields): (r: Result<TaskOut>)
    ensures r.Ok? <==>
      && "id" in f && f["id"].Int?
      && "title" in f && f["title"].Str?
      && "description" in f && (f["description"].Str? || f["description"].Null?)
      && "status" in f && IsStatusValue(f["status"])
      && "priority" in f && IsPriorityValue(f["priority"])
      && "list_id" in f && f["list_id"].Int?
    ensures r.Ok? ==> r.value.id == f["id"].i && r.value.listId == f["list_id"].i
    ensures r.Ok? ==> r.value.title == f["title"].s
    ensures r.Ok? ==> (r.value.description.Some? <==> f["description"].Str?)
    ensures r.Ok? && r.value.description.Some? ==> r.value.description.value == f["description"].s
    ensures r.Ok? ==> StatusName(r.value.status) == f["status"].s
    ensures r.Ok? ==> PriorityName(r.value.priority) == f["priority"].s
  {
    var id :- RequiredInt(f, "id");
    var title :- RequiredStr(f, "title");
    var description :- NullableStr(f, "description");
    var status :- if "status" in f then StatusOf(f["status"], "status") else Err(Invalid("status"));
    var priority :- if "priority" in f then PriorityOf(f["priority"], "priority") else Err(Invalid("priority"));
    var listId :- RequiredInt(f, "list_id");
    Ok(TaskOut(id, title, description, status, priority, listId))
  }

  /** `TaskListOut`: id and name are both required. */
  function ValidateTaskListOut(f: Fields): (r: Result<TaskListOut>)
    ensures r.Ok? <==> "id" in f && f["id"].Int? && "name" in f && f["name"].Str?
    ensures r.Ok? ==> r.value.id == f["id"].i && r.value.name == f["name"].s
  {
    var id :- RequiredInt(f, "id");
    var name :- RequiredStr(f, "name");
    Ok(TaskListOut(id, name))
  }

  /** A `TaskOut` whose other fields are valid is refused on a priority of 2, "invalid" or null. */
  lemma TaskOutRejectsBadPriority(bad: Value)
    requires bad in {Int(2), Str("invalid"), Null}
    ensures ValidateTaskOut(map["id" := Int(1), "title" := Str("title"),
                                "description" := Str("description"), "status" := Str("pending"),
                                "priority" := bad, "list_id" := Int(1)])
         == Err(Invalid("priority"))
  {
  }

  /** `TaskListCreate`: the name is a required string (an empty one is not refused). */
  function ValidateTaskListCreate(f: Fields): (r: Result<TaskListCreate>)
    ensures r.Ok? <==> "name" in f && f["name"].Str?
    ensures r.Ok? ==> r.value.name == f["name"].s
  {
    var name :- RequiredStr(f, "name");
    Ok(TaskListCreate(name))
  }

  /** `TaskListUpdate`: the name must be supplied, but may be null. */
  function ValidateTaskListUpdate(f: Fields): (r: Result<TaskListUpdate>)
    ensures r.Ok? <==> "name" in f && (f["name"].Str? || f["name"].Null?)
    ensures r.Ok? ==> (r.value.name.Some? <==> f["name"].Str?)
    ensures r.Ok? && r.value.name.Some? ==> r.value.name.value == f["name"].s
  {
    var name :- NullableStr(f, "name");
    Ok(TaskListUpdate(name))
  }

  /** `Token`: an access token is required and the token type defaults to "bearer". */
  function ValidateToken(f: Fields): (r: Result<Token>)
    ensures r.Ok? <==> "access_token" in f && f["access_token"].Str?
                       && ("token_type" !in f || f["token_type"].Str?)
    ensures r.Ok? ==> r.value.accessToken == f["access_token"].s
    ensures r.Ok? && "token_type" !in f ==> r.value.tokenType == BearerTokenType
    ensures r.Ok? && "token_type" in f ==> r.value.tokenType == f["token_type"].s
  {
    var accessToken :- RequiredStr(f, "access_token");
    var tokenType :- if "token_type" in f then RequiredStr(f, "token_type") else Ok(BearerTokenType);
    Ok(Token(accessToken, tokenType))
  }
}
