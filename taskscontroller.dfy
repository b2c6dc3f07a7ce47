/** The task endpoints: which caller sees which tasks, and how each repository outcome
    becomes a response. Read-only actions are functions of the caller and the two tables;
    the actions that change the store are methods on the repository object. */
module TasksController {

  import opened Wrappers
  import opened Domain
  import opened TaskQueries
  import opened Repository

  /** A role name other than the two the actions test for. */
  type OtherRoleName = s: string | s != "Admin" && s != "User" witness ""

  /** A role the authenticated caller holds: "Admin", "User", or any other name. */
  datatype Role = Admin | RegularUser | OtherRole(name: OtherRoleName)

  /** The caller's NameIdentifier claim: missing, present but not a GUID, or a GUID. */
  datatype Claim = NoClaim | Malformed | ClaimId(id: Guid)

  /** What a successful response carries. */
  datatype Body =
    | TaskList(tasks: seq<MyTask>)
    | RowList(rows: seq<MyTaskWithUsername>)
    | OneTask(task: MyTask)
    | NoContent

  /** The outcome of an action; `Error` stands for any exception that ends in a
      server error. */
  datatype Response = Ok(body: Body) | NotFound | Unauthorized | Forbid | BadRequest | Conflict | Error

  /** `GetUserIdFromToken`: `Guid.Empty` when the claim is missing, the parsed id when it
      is a GUID, and no value (a `FormatException` from `Guid.Parse`) otherwise. The
      result is `Guid.Empty` exactly when the claim is missing or is the all-zero GUID. */
  function UserIdFromToken(claim: Claim): (r: Option<Guid>)
    ensures r.None? <==> claim.Malformed?
    ensures claim.ClaimId? ==> r == Some(claim.id)
    ensures r == Some(EmptyGuid) <==> claim.NoClaim? || claim == ClaimId(EmptyGuid)
  {
    match claim
    case NoClaim => Some(EmptyGuid)
    case Malformed => None
    case ClaimId(id) => Some(id)
  }

  /** A task list as a response: `NotFound` for an empty list, never `Ok` with nothing. */
  function TasksOrNotFound(ts: seq<MyTask>): (r: Response)
    ensures r == NotFound <==> ts == []
    ensures r != NotFound ==> r == Ok(TaskList(ts))
  {
    if ts == [] then NotFound else Ok(TaskList(ts))
  }

  /** A joined list as a response: `NotFound` for an empty list. */
  function RowsOrNotFound(rows: seq<MyTaskWithUsername>): (r: Response)
    ensures r == NotFound <==> rows == []
    ensures r != NotFound ==> r == Ok(RowList(rows))
  {
    if rows == [] then NotFound else Ok(RowList(rows))
  }

  /** `GetAllTasks`: an Admin sees the whole table; otherwise a User sees the tasks they
      own, provided the token names them; any other caller is refused. */
  function GetAllTasks(roles: set<Role>, claim: Claim, tasks: seq<MyTask>): (r: Response)
    ensures r.Ok? ==> r.body.TaskList? && r.body.tasks != []
    ensures Admin in roles ==> (r == NotFound <==> tasks == []) && (r != NotFound ==> r == Ok(TaskList(tasks)))
    ensures Admin !in roles && RegularUser in roles ==>
      match UserIdFromToken(claim)
      case None => r == Error
      case Some(id) =>
        && (id == EmptyGuid ==> r == Unauthorized)
        && (id != EmptyGuid ==> r == Ok(TaskList(ByUserId(tasks, id))) || r == NotFound)
        && (id != EmptyGuid && r.Ok? ==> forall t :: t in r.body.tasks <==> t in tasks && t.userId == Some(id))
        && (id != EmptyGuid ==> (r == NotFound <==> forall t :: t in tasks ==> t.userId != Some(id)))
    ensures Admin !in roles && RegularUser !in roles ==> r == Forbid
  {
    if Admin in roles then TasksOrNotFound(tasks)
    else if RegularUser in roles then
      match UserIdFromToken(claim)
      case None => Error
      case Some(id) =>
        if id == EmptyGuid then Unauthorized else TasksOrNotFound(ByUserId(tasks, id))
    else Forbid
  }

  /** Admin is tested first: a caller holding Admin gets what an Admin alone gets, whatever
      other roles and claim they hold. */
  lemma AdminTakesPrecedence(roles: set<Role>, claim: Claim, tasks: seq<MyTask>)
    requires Admin in roles
    ensures GetAllTasks(roles, claim, tasks) == GetAllTasks({Admin}, NoClaim, tasks)
  {
  }

  /** The admission rule that `[Authorize(Roles = "User, Admin")]` applies before the
      action runs. */
  predicate AdmitsUserOrAdmin(roles: set<Role>) {
    Admin in roles || RegularUser in roles
  }

  /** `Forbid` is answered only to callers the admission rule would already have refused. */
  lemma ForbidOnlyForRefusedCallers(roles: set<Role>, claim: Claim, tasks: seq<MyTask>)
    ensures GetAllTasks(roles, claim, tasks) == Forbid <==> !AdmitsUserOrAdmin(roles)
  {
  }

  /** `GetTasksByDueDateAndStatusAndTitle`: the multi-criteria query with the owner left
      open for an Admin and set to the token's id for a User; no criterion is required;
      any other caller is refused. The token id is used as it is: a User without a claim
      is scoped to `Guid.Empty`, not refused. */
  function GetTasksByDueDateAndStatusAndTitle(roles: set<Role>, claim: Claim, title: Option<string>,
                                              dueDate: Option<Ticks>, status: Option<CustomTaskStatus>,
                                              tasks: seq<MyTask>, users: seq<User>): (r: Response)
    ensures r.Ok? ==> r.body.RowList? && r.body.rows != []
    ensures Admin in roles ==>
      var rows := FilterJoined(tasks, users, TaskFilter(None, title, dueDate, status));
      (r == NotFound <==> rows == []) && (r != NotFound ==> r == Ok(RowList(rows)))
    ensures Admin !in roles && RegularUser in roles ==>
      match UserIdFromToken(claim)
      case None => r == Error
      case Some(id) =>
        var rows := FilterJoined(tasks, users, TaskFilter(Some(id), title, dueDate, status));
        (r == NotFound <==> rows == []) && (r != NotFound ==> r == Ok(RowList(rows)))
    ensures Admin !in roles && RegularUser !in roles ==> r == Unauthorized
  {
    if Admin in roles then
      RowsOrNotFound(FilterJoined(tasks, users, TaskFilter(None, title, dueDate, status)))
    else if RegularUser in roles then
      match UserIdFromToken(claim)
      case None => Error
      case Some(id) => RowsOrNotFound(FilterJoined(tasks, users, TaskFilter(Some(id), title, dueDate, status)))
    else Unauthorized
  }

  /** A User caller only ever receives rows of tasks that they own. */
  lemma UserSeesOnlyOwnTasks(roles: set<Role>, id: Guid, title: Option<string>, dueDate: Option<Ticks>,
                             status: Option<CustomTaskStatus>, tasks: seq<MyTask>, users: seq<User>)
    requires Admin !in roles && RegularUser in roles
    ensures var r := GetTasksByDueDateAndStatusAndTitle(roles, ClaimId(id), title, dueDate, status, tasks, users);
      r.Ok? ==> forall row :: row in r.body.rows ==>
        exists t, u :: t in tasks && t.userId == Some(id) && u in users && u.userId == id && row == Enrich(t, u)
  {
  }

  /** An Admin filtering by nothing (a null or empty title and no date or status) gets the
      same response as the all-tasks-with-user-names endpoint. */
  lemma AdminFilterWithoutCriteria(roles: set<Role>, claim: Claim, title: Option<string>,
                                   tasks: seq<MyTask>, users: seq<User>)
    requires Admin in roles && IsNullOrEmpty(title)
    ensures GetTasksByDueDateAndStatusAndTitle(roles, claim, title, None, None, tasks, users)
         == GetAllTasksIncludingUsername(tasks, users)
  {
    FilterWithoutCriteriaIsAll(tasks, users, title);
  }

  /** A User whose token has no id is not refused by the filter endpoint: the query runs
      with `Guid.Empty` as the owner. */
  lemma FilterWithoutClaimUsesEmptyGuid(roles: set<Role>, title: Option<string>, dueDate: Option<Ticks>,
                                        status: Option<CustomTaskStatus>, tasks: seq<MyTask>, users: seq<User>)
    requires Admin !in roles && RegularUser in roles
    ensures var r := GetTasksByDueDateAndStatusAndTitle(roles, NoClaim, title, dueDate, status, tasks, users);
      && r != Unauthorized
      && (r.Ok? ==> forall row :: row in r.body.rows ==>
            exists t :: t in tasks && t.userId == Some(EmptyGuid) && row.title == t.title)
  {
  }

  /** `GetTasksByUserID`: the tasks of the given owner, or `NotFound` when there are none. */
  function GetTasksByUserID(userId: Guid, tasks: seq<MyTask>): (r: Response)
    ensures r == NotFound <==> forall t :: t in tasks ==> t.userId != Some(userId)
    ensures r != NotFound ==> r.Ok? && r.body == TaskList(ByUserId(tasks, userId))
  {
    TasksOrNotFound(ByUserId(tasks, userId))
  }

  /** `GetAllTasksIncludingUsername`: every task with its owner's name, or `NotFound`
      when no task has an existing owner. */
  function GetAllTasksIncludingUsername(tasks: seq<MyTask>, users: seq<User>): (r: Response)
    ensures r == NotFound <==> forall t :: t in tasks ==> !Resolves(t, users)
    ensures r != NotFound ==> r.Ok? && r.body == RowList(AllWithUserNames(tasks, users))
  {
    JoinEmpty(tasks, users);
    RowsOrNotFound(AllWithUserNames(tasks, users))
  }

  /** The task as posted: `status` is `None` when the request leaves it unset. */
  datatype NewTask = NewTask(
    title: string,
    description: string,
    dueDate: Ticks,
    status: Option<CustomTaskStatus>,
    userId: Option<Guid>)

  /** The task `AddTask` creates from a request: an unset status becomes `Pending`, and
      every other field is taken as posted. */
  function WithDefaultStatus(p: NewTask): (t: MyTask)
    ensures p.status.None? ==> t.status == Pending
    ensures p.status.Some? ==> t.status == p.status.value
    ensures t.title == p.title && t.description == p.description
    ensures t.dueDate == p.dueDate && t.userId == p.userId
  {
    MyTask(p.title, p.description, p.dueDate, if p.status.Some? then p.status.value else Pending, p.userId)
  }

  /** `IsUserExistsOrNotExists` on the task's owner: the owner is set and is some user. */
  predicate OwnerExists(users: seq<User>, userId: Option<Guid>) {
    userId.Some? && exists u :: u in users && u.userId == userId.value
  }

  /** `AddTask`: default the status, refuse an owner that does not exist, map a title
      already in the table to `Conflict`, and otherwise store and return the task. */
  method AddTask(repo: TaskRepository, request: NewTask) returns (r: Response)
    requires repo.Valid()
    modifies repo
    ensures repo.Valid() && repo.users == old(repo.users)
    ensures var task := WithDefaultStatus(request);
      && (!OwnerExists(old(repo.users), task.userId) ==>
            r == BadRequest && repo.tasks == old(repo.tasks))
      && (OwnerExists(old(repo.users), task.userId) && TitleIndex(old(repo.tasks), task.title).Some? ==>
            r == Conflict && repo.tasks == old(repo.tasks))
      && (OwnerExists(old(repo.users), task.userId) && TitleIndex(old(repo.tasks), task.title).None? ==>
            r == Ok(OneTask(task)) && repo.tasks == old(repo.tasks) + [task])
  {
    var task := WithDefaultStatus(request);
    if OwnerExists(repo.users, task.userId) {
      var created := repo.AddNewTask(task);
      match created
      case Success(t) => r := Ok(OneTask(t));
      case Failure(e) => r := if e == DuplicateKey then Conflict else Error;
    } else {
      r := BadRequest;
    }
  }

  /** `DeleteTask`: `NotFound` without deleting when the lookup finds nothing; otherwise
      the task is removed and a later lookup of the title finds nothing. The
      "failed to delete" answer cannot occur, since the delete repeats the same lookup. */
  method DeleteTask(repo: TaskRepository, title: string) returns (r: Response)
    requires repo.Valid()
    modifies repo
    ensures repo.Valid() && repo.users == old(repo.users)
    ensures r != BadRequest
    ensures GetTaskByTitle(old(repo.tasks), title).None? ==> r == NotFound && repo.tasks == old(repo.tasks)
    ensures GetTaskByTitle(old(repo.tasks), title).Some? ==>
      && r == Ok(NoContent)
      && TitleIndex(old(repo.tasks), title).Some?
      && repo.tasks == RemoveAt(old(repo.tasks), TitleIndex(old(repo.tasks), title).value)
    ensures GetTaskByTitle(repo.tasks, title).None?
  {
    if GetTaskByTitle(repo.tasks, title).Some? {
      var deleted := repo.DeleteExistingTask(title);
      r := if deleted then Ok(NoContent) else BadRequest;
    } else {
      r := NotFound;
    }
  }

  /** `EditTheTask`: edit by title; a missing title ends in a server error with nothing
      changed; otherwise the response carries the request's task, not the stored one. */
  method EditTheTask(repo: TaskRepository, input: MyTask) returns (r: Response)
    requires repo.Valid()
    modifies repo
    ensures repo.Valid() && repo.users == old(repo.users)
    ensures TitleIndex(old(repo.tasks), input.title).None? ==> r == Error && repo.tasks == old(repo.tasks)
    ensures TitleIndex(old(repo.tasks), input.title).Some? ==>
      var i := TitleIndex(old(repo.tasks), input.title).value;
      && repo.tasks == old(repo.tasks)[i := ApplyEdit(old(repo.tasks)[i], input)]
      && r == Ok(OneTask(input))
  {
    var edited := repo.EditATask(input);
    r := if edited.Success? then Ok(OneTask(input)) else Error;
  }

  /** The echoed task can differ from what was stored: an edit that leaves the owner
      unset keeps the stored owner, while the response shows none. */
  lemma EditEchoMayDifferFromStored(existing: MyTask, input: MyTask)
    requires input.title == existing.title && input.userId.None? && existing.userId.Some?
    ensures ApplyEdit(existing, input) != input
    ensures ApplyEdit(existing, input).userId == existing.userId
  {
  }

  /** `UpdateTaskStatus` for a User: a token without an id is refused, a missing task is
      `NotFound`, a task owned by someone else is refused; otherwise only that task's
      status changes and the stored task is returned. Refusals change nothing. */
  method UpdateTaskStatus(repo: TaskRepository, claim: Claim, taskTitle: string, newStatus: CustomTaskStatus)
    returns (r: Response)
    requires repo.Valid()
    modifies repo
    ensures repo.Valid() && repo.users == old(repo.users)
    ensures !r.Ok? ==> repo.tasks == old(repo.tasks)
    ensures
      var id := UserIdFromToken(claim);
      var found := GetTaskByTitle(old(repo.tasks), taskTitle);
      if id.None? then r == Error
      else if id.value == EmptyGuid then r == Unauthorized
      else if found.None? then r == NotFound
      else if found.value.userId != Some(id.value) then r == Unauthorized
      else
        && TitleIndex(old(repo.tasks), taskTitle).Some?
        && var i := TitleIndex(old(repo.tasks), taskTitle).value;
        && repo.tasks == old(repo.tasks)[i := old(repo.tasks)[i].(status := newStatus)]
        && r == Ok(OneTask(repo.tasks[i]))
  {
    var id := UserIdFromToken(claim);
    if id.None? {
      return Error;
    }
    if id.value == EmptyGuid {
      return Unauthorized;
    }
    var task := GetTaskByTitle(repo.tasks, taskTitle);
    if task.None? {
      return NotFound;
    }
    if task.value.userId != Some(id.value) {
      return Unauthorized;
    }
    var changed := task.value.(status := newStatus);
    var updated := repo.EditATask(changed);
    r := if updated.Success? then Ok(OneTask(updated.value)) else Error;
  }
}
