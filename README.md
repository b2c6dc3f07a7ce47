# Task management backend: a Dafny model of its task core

This project models the part of the task-management backend that makes decisions:

- **The task repository.** It holds two tables: tasks, keyed by Title, and users, keyed by UserId.
  - Read queries: the multi-criteria filter, the join of tasks with their owners' names, the calendar-date ceiling, and the status and owner filters.
  - Title look-ups: exact, and up to letter case.
  - Mutators: add, edit, delete and status update.
- **The task endpoints.** To model them, the caller's role set and identity claim are turned into a scope, and each repository outcome becomes a response.
- **The registration validator.** It checks the user name and the password.

Layout, one module per file:

| file | module | contents |
|---|---|---|
| `wrappers.dfy` | `Wrappers` | `Option`, `Result` |
| `domain.dfy` | `Domain` | `MyTask`, `User`, `MyTaskWithUsername`, `CustomTaskStatus`, GUIDs as 128-bit integers, timestamps as `DateTime` ticks, `DateOf` (the `.Date` truncation) |
| `strings.dfy` | `Strings` | `char.IsWhiteSpace`, the blank test, ordinal `Contains`, ASCII case-insensitive equality, the `[a-zA-Z0-9]` class |
| `taskqueries.dfy` | `TaskQueries` | the read queries of `TaskRepository.cs` as functions of the two tables, with their lemmas |
| `repository.dfy` | `Repository` | the class `TaskRepository`, whose `seq` fields the mutators reassign; the step-by-step filter method; the partial-update rule; the key-preservation lemmas |
| `taskscontroller.dfy` | `TasksController` | roles, claims and `Response`; the read-only actions as functions, the mutating actions as methods on the repository |
| `registeruser.dfy` | `RegisterUser` | the `Required`, `RegularExpression` and `MinLength` rules as predicates, with lemmas |

Decisions the code forced:

- **Role set and `[Authorize]`.** A caller is a set of roles (`Admin`, `RegularUser` for the role named "User", or any other name; the type `OtherRoleName` excludes "Admin" and "User", so each role has one representation) plus a claim (missing, malformed, or a GUID). The `[Authorize(Roles = ...)]` gate runs before an action. It is not a precondition here. The actions are modelled for every role set, so the action bodies' own refusals (`Forbid`, `Unauthorized`) stay reachable. `ForbidOnlyForRefusedCallers` ties `Forbid` to the gate.
- **Repository reads.** The repository's `GetAllTasks` is the `tasks` sequence itself. The Admin branch of the `GetAllTasks` action reads it directly.
- **Service layer.** Every controller service is taken to call the repository operation of the same purpose. This covers `_getAllTasks`, `_createTask`, `_getTaskByTitle`, `_deleteTask`, `_editTask` and `_getByUserID`. The owner check `IsUserExistsOrNotExists` is taken to be "the owner is set and is the id of a user in the table".
- **Filter action without a claim.** For a User whose token has no id, `GetUserIdFromToken` yields `Guid.Empty`. Unlike `GetAllTasks` and `UpdateTaskStatus`, the filter action (`TasksController.cs:217-219`) does not refuse a User without an id claim; it passes `Guid.Empty` on as the owner filter (`FilterWithoutClaimUsesEmptyGuid`).
- **`GetUserIdFromToken` and the zero GUID.** The function returns `Guid.Empty` for a missing claim. It also returns it for a claim whose value is the all-zero GUID, so "Empty iff absent" holds only up to that case.
- **Unset status in `AddTask`.** The posted task (`NewTask`) carries `status: Option<CustomTaskStatus>`, and `WithDefaultStatus` maps `None` to `Pending`, as the branch at `TasksController.cs:114-117` intends. How this relates to the C# code is stated under "## Left out".
- **The `DbUpdateException` special case.** The catch that matches "Violation of PRIMARY KEY" is modelled as "the title is already in the table". It surfaces as `StoreError.DuplicateKey` from `AddNewTask` and as `Conflict` from `AddTask`.
- **Exceptions.** An exception that ends in a server error becomes `Response.Error`. This covers the 500 handlers, and also the `throw;` re-raises that reach the framework. Examples are `Guid.Parse` on a malformed claim and `EditATask` on a missing title.
- **Order and duplicates.** Query results keep table order, as the model's sequences do. The contracts speak of membership and counts, not order. `JoinCount` shows that with unique user ids the join gives one row per task whose owner exists.

## Model

| member | source | states |
|---|---|---|
| `Domain.DateOf` | finalSubmission.Infrastructure/Repositories/TaskRepository.cs:98 | `.Date` is the midnight at or before the timestamp, less than one day earlier, and a whole number of days |
| `Strings.EqualImpliesEqualsIgnoreCase` | finalSubmission.Infrastructure/Repositories/TaskRepository.cs:50 | an exact title match is also a match under `OrdinalIgnoreCase` |
| `Strings.IgnoreCaseIdentifiesCaseVariants` | finalSubmission.Infrastructure/Repositories/TaskRepository.cs:50 | "Report" and "REPORT" are different titles that the case-insensitive comparison treats as equal |
| `Strings.ContainsIsCaseSensitive` | finalSubmission.Infrastructure/Repositories/TaskRepository.cs:171 | the title filter is case-sensitive: "Rep" occurs in "Report" and not in "report" |
| `TaskQueries.Where` | finalSubmission.Infrastructure/Repositories/TaskRepository.cs:161-182 | a `Where` step keeps exactly the tasks that satisfy its predicate, never more than it had, and is empty iff none does |
| `TaskQueries.WhereMultiplicity` | finalSubmission.Infrastructure/Repositories/TaskRepository.cs:161-182 | a `Where` step keeps every copy of a passing task and drops every copy of a failing one |
| `TaskQueries.WhereTwice` | finalSubmission.Infrastructure/Repositories/TaskRepository.cs:164-182 | two successive `Where` steps equal one `Where` with the conjunction, so rebinding `query` filter by filter applies all the filters at once |
| `TaskQueries.FirstIndex` | finalSubmission.Infrastructure/Repositories/TaskRepository.cs:110 | `FirstOrDefault` gives the first position that satisfies the predicate, and nothing iff no position does |
| `TaskQueries.TitleIndex` | finalSubmission.Infrastructure/Repositories/TaskRepository.cs:123 | the exact-title look-up finds a task with that title, and finds nothing iff no task has it |
| `TaskQueries.TitleIndexUnique` | finalSubmission.Infrastructure/Repositories/TaskRepository.cs:123 | when titles are unique, a task's title finds that task's own position |
| `TaskQueries.GetTaskByTitle` | finalSubmission.Infrastructure/Repositories/TaskRepository.cs:106-113 | a blank (empty or white-space) title finds nothing; any other title finds a task whose Title is exactly equal iff one exists |
| `TaskQueries.ExactTitleFoundIgnoringCase` | finalSubmission.Infrastructure/Repositories/TaskRepository.cs:50 | if some task has exactly the given title, the status update's case-insensitive look-up finds a task, at that position or earlier |
| `TaskQueries.TitleIndexIgnoreCase` | finalSubmission.Infrastructure/Repositories/TaskRepository.cs:50 | the status update's look-up finds the first task whose title equals the given one up to letter case, and nothing iff none does |
| `TaskQueries.ByStatus` | finalSubmission.Infrastructure/Repositories/TaskRepository.cs:86-89 | exactly the tasks with the given status |
| `TaskQueries.ByUserId` | finalSubmission.Infrastructure/Repositories/TaskRepository.cs:149-152 | exactly the tasks owned by the given id; unowned tasks never match |
| `TaskQueries.ByDueDate` | finalSubmission.Infrastructure/Repositories/TaskRepository.cs:96-99 | exactly the tasks whose due calendar date is on or before the ceiling's calendar date |
| `TaskQueries.DateCeilingIsEndOfDay` | finalSubmission.Infrastructure/Repositories/TaskRepository.cs:98 | a due date passes the calendar-date ceiling iff it is before the midnight that ends the ceiling's day, whatever the time of day |
| `TaskQueries.ByDueDateIsEndOfDay` | finalSubmission.Infrastructure/Repositories/TaskRepository.cs:96-99 | `GetAllTasksByDueDate(d)` keeps a task iff it is due before the end of d's calendar day; a task due on the next day or later is excluded |
| `TaskQueries.DateAndTimestampCeilingsDiffer` | finalSubmission.Infrastructure/Repositories/TaskRepository.cs:96-99 | on any day, a task due at noon passes the calendar-date ceiling of 08:00 that day but fails the full-timestamp ceiling of the filter (line 176) |
| `TaskQueries.Enrich` | finalSubmission.Infrastructure/Repositories/TaskRepository.cs:187-193 | a joined row copies Title, Description, DueDate and Status from the task and UserName from the user |
| `TaskQueries.Rows` | finalSubmission.Infrastructure/Repositories/TaskRepository.cs:186 | the rows of one task are exactly its enrichments with the users that own it |
| `TaskQueries.Join` | finalSubmission.Infrastructure/Repositories/TaskRepository.cs:185-194 | the inner join holds a row iff some task and some user owning it enrich to that row |
| `TaskQueries.AllWithUserNames` | finalSubmission.Infrastructure/Repositories/TaskRepository.cs:199-212 | `GetAllTasksIncludingUsername` holds exactly the enrichments of task/owner pairs |
| `TaskQueries.FilterJoined` | finalSubmission.Infrastructure/Repositories/TaskRepository.cs:154-197 | the filtered query holds a row iff it enriches a task passing every supplied criterion with a user owning that task |
| `TaskQueries.FilterWithoutCriteriaIsAll` | finalSubmission.Infrastructure/Repositories/TaskRepository.cs:164-182 | with no owner, date or status and a null or empty title, the filtered query equals `GetAllTasksIncludingUsername` as a sequence |
| `TaskQueries.JoinDropsOrphans` | finalSubmission.Infrastructure/Repositories/TaskRepository.cs:185-186 | joining the whole table gives the same rows as joining only the tasks whose owner exists |
| `TaskQueries.OrphanHasNoRows` | finalSubmission.Infrastructure/Repositories/TaskRepository.cs:186 | a task with no owner, or an owner that is not a user, has no join row |
| `TaskQueries.OrphanNotListed` | finalSubmission.Infrastructure/Repositories/TaskRepository.cs:202-203 | with unique titles, no row of either joined query carries an orphaned task's title, even when the task passes every filter criterion |
| `TaskQueries.JoinEmpty` | finalSubmission.Infrastructure/Repositories/TaskRepository.cs:201-211 | the join is empty iff no task has an existing owner |
| `TaskQueries.RowsCount` | finalSubmission.Infrastructure/Repositories/TaskRepository.cs:186 | with unique user ids a task has one join row if its owner exists and none otherwise |
| `TaskQueries.JoinCount` | finalSubmission.Infrastructure/Repositories/TaskRepository.cs:185-186 | with unique user ids the join has exactly as many rows as there are tasks whose owner exists |
| `Repository.ApplyEdit` | finalSubmission.Infrastructure/Repositories/TaskRepository.cs:130-137 | an edit keeps the Title, overwrites Description, DueDate and Status, and overwrites the owner only when the input has one |
| `Repository.RemoveAt` | finalSubmission.Infrastructure/Repositories/TaskRepository.cs:74 | removing one task keeps the tasks before it and shifts the ones after it down by one |
| `Repository.AppendKeepsTitlesUnique` | finalSubmission.Infrastructure/Repositories/TaskRepository.cs:36-37 | adding a task whose title is new keeps the titles unique |
| `Repository.ReplaceKeepsTitlesUnique` | finalSubmission.Infrastructure/Repositories/TaskRepository.cs:130-139 | updating a task in place without changing its title keeps the titles unique |
| `Repository.RemoveAtDropsTitle` | finalSubmission.Infrastructure/Repositories/TaskRepository.cs:68-79 | removing a task keeps the titles unique and leaves no task with the removed title |
| `Repository.TaskRepository.constructor` | finalSubmission.Infrastructure/Repositories/TaskRepository.cs:14-17 | the store starts with the given tables, whose keys are unique |
| `Repository.TaskRepository.AddNewTask` | finalSubmission.Infrastructure/Repositories/TaskRepository.cs:34-39 | a new title is appended and the task is returned as given; a title already present fails with a key violation and leaves the table unchanged |
| `Repository.TaskRepository.UpdateTaskStatus` | finalSubmission.Infrastructure/Repositories/TaskRepository.cs:47-61 | the first case-insensitive title match gets the new status and nothing else changes; no match returns null and changes nothing |
| `Repository.TaskRepository.DeleteExistingTask` | finalSubmission.Infrastructure/Repositories/TaskRepository.cs:68-79 | returns true iff `GetTaskByTitle` finds the task, and then removes exactly that task; otherwise returns false and changes nothing; afterwards the title finds nothing |
| `Repository.TaskRepository.EditATask` | finalSubmission.Infrastructure/Repositories/TaskRepository.cs:121-142 | a missing title raises `KeyNotFoundException` with nothing changed; otherwise only the matching task changes, by the partial-update rule, and the updated stored task is returned |
| `Repository.TaskRepository.GetTasksByDueDateAndStatus` | finalSubmission.Infrastructure/Repositories/TaskRepository.cs:154-197 | the step-by-step query equals `FilterJoined`, and a row is returned iff it joins a task with its owner and the task meets each supplied criterion (owner, title substring, timestamp ceiling, status) |
| `TasksController.UserIdFromToken` | finalSubmissionDotNet/Controllers/TasksController.cs:345-349 | a malformed claim fails to parse; a GUID claim gives that GUID; the result is `Guid.Empty` iff the claim is missing or is the zero GUID |
| `TasksController.TasksOrNotFound` | finalSubmissionDotNet/Controllers/TasksController.cs:86-91 | an empty task list gives NotFound and never Ok; a non-empty one gives Ok with that list |
| `TasksController.RowsOrNotFound` | finalSubmissionDotNet/Controllers/TasksController.cs:226-231 | an empty joined list gives NotFound and never Ok; a non-empty one gives Ok with that list |
| `TasksController.GetAllTasks` | finalSubmissionDotNet/Controllers/TasksController.cs:57-98 | Admin gets the whole table; a User-only caller gets exactly their own tasks, is refused (Unauthorized) for an Empty id, and gets Error for a malformed claim; a caller with neither role gets Forbid; Ok never carries an empty list |
| `TasksController.AdminTakesPrecedence` | finalSubmissionDotNet/Controllers/TasksController.cs:64-69 | a caller holding Admin and any other roles or claim is treated exactly as an Admin |
| `TasksController.ForbidOnlyForRefusedCallers` | finalSubmissionDotNet/Controllers/TasksController.cs:81-84 | Forbid is returned iff the caller holds neither Admin nor User, that is, only to callers the `[Authorize]` gate on line 55 refuses |
| `TasksController.GetTasksByDueDateAndStatusAndTitle` | finalSubmissionDotNet/Controllers/TasksController.cs:203-232 | Admin gets the filtered query with no owner; User gets it with the token's id as owner; any other caller gets Unauthorized; no criterion is required; an empty result gives NotFound |
| `TasksController.UserSeesOnlyOwnTasks` | finalSubmissionDotNet/Controllers/TasksController.cs:215-220 | a User-only caller's filter rows all come from tasks they own, joined with their own user record |
| `TasksController.AdminFilterWithoutCriteria` | finalSubmissionDotNet/Controllers/TasksController.cs:205-213 | an Admin filtering by nothing gets the same response as the all-tasks-with-user-names endpoint |
| `TasksController.FilterWithoutClaimUsesEmptyGuid` | finalSubmissionDotNet/Controllers/TasksController.cs:217-219 | a User with no id claim is not refused by the filter endpoint; only tasks owned by `Guid.Empty` can be returned |
| `TasksController.GetTasksByUserID` | finalSubmissionDotNet/Controllers/TasksController.cs:260-277 | NotFound iff the given id owns no task; otherwise Ok with the tasks that id owns |
| `TasksController.GetAllTasksIncludingUsername` | finalSubmissionDotNet/Controllers/TasksController.cs:328-343 | NotFound iff no task has an existing owner; otherwise Ok with the joined view |
| `TasksController.WithDefaultStatus` | finalSubmissionDotNet/Controllers/TasksController.cs:114-117 | an unset status becomes Pending, and a set status and all other fields are kept |
| `TasksController.AddTask` | finalSubmissionDotNet/Controllers/TasksController.cs:110-139 | a missing owner gives BadRequest and creates nothing; a title already present gives Conflict and leaves the table, including the existing task, unchanged; otherwise the defaulted task is appended and returned |
| `TasksController.DeleteTask` | finalSubmissionDotNet/Controllers/TasksController.cs:149-168 | a title the look-up does not find gives NotFound and deletes nothing; otherwise Ok, exactly that task is removed, and a later look-up finds nothing; the "failed to delete" BadRequest never occurs |
| `TasksController.EditTheTask` | finalSubmissionDotNet/Controllers/TasksController.cs:179-190 | a missing title ends in Error with nothing changed; otherwise the store is edited by the partial-update rule and the response echoes the input task |
| `TasksController.EditEchoMayDifferFromStored` | finalSubmissionDotNet/Controllers/TasksController.cs:183-184 | when the input leaves the owner unset, the echoed task differs from the stored one, which keeps its owner |
| `TasksController.UpdateTaskStatus` | finalSubmissionDotNet/Controllers/TasksController.cs:288-320 | in order: a malformed claim gives Error, an Empty id Unauthorized, a missing task NotFound, and another owner Unauthorized, each with the store unchanged; otherwise only that task's status becomes the new status and the stored task is returned |
| `RegisterUser.UserNameRule` | finalSubmission.Core/Domain/Entities/RegisterUser.cs:7-9 | a user name is valid iff it is present, non-empty and every character is in `[a-zA-Z0-9]` |
| `RegisterUser.UserNameRejectsOtherCharacters` | finalSubmission.Core/Domain/Entities/RegisterUser.cs:8 | any character outside `[a-zA-Z0-9]`, at any position, rejects the name |
| `RegisterUser.UserNameExamples` | finalSubmission.Core/Domain/Entities/RegisterUser.cs:7-8 | a space, an underscore, punctuation, a non-ASCII letter, the empty name and a null name are rejected; "John42" is accepted |
| `RegisterUser.PasswordRule` | finalSubmission.Core/Domain/Entities/RegisterUser.cs:11-13 | a password is valid iff it is present, at least six characters long and not only white space |
| `RegisterUser.PasswordExamples` | finalSubmission.Core/Domain/Entities/RegisterUser.cs:11-12 | five characters are rejected and six accepted; six spaces, the empty string and null are rejected |
| `RegisterUser.RegistrationNeedsBothFields` | finalSubmission.Core/Domain/Entities/RegisterUser.cs:7-13 | a registration is valid only if both fields are; a valid name with a password shorter than six characters is refused |

## Left out

- Entity Framework plumbing is not modelled: `DbContext`, change tracking, `SaveChangesAsync`, async calls and `ToListAsync`. Each repository call is one synchronous read or reassignment of the two sequences.
- Database collation and LINQ-to-SQL translation are not modelled. `==`, `Contains` and key comparison follow the C# semantics as written, not a server's case-insensitive collation.
- `Strings.EqualsIgnoreCase`, and so `Repository.TaskRepository.UpdateTaskStatus`, map case only for the ASCII letters. `OrdinalIgnoreCase` also maps non-ASCII letters; this ASCII-only mapping is simpler than the full Unicode case table.
- String lengths count Dafny characters (Unicode scalar values), not UTF-16 code units; this affects the six-character password rule only for characters outside the Basic Multilingual Plane.
- Result order is not stated. The sequences keep the store's order, but the contracts speak only of membership and counts.
- Routing, model-validation filters, response messages and concrete HTTP status codes are not modelled. The `[Authorize]` gate appears only as the predicate `AdmitsUserOrAdmin`.
- Exceptions the model does not raise are not modelled: other database failures, cancellation, and so on. All server errors are the single outcome `Response.Error`.
- `Guid.Parse` is not modelled as string parsing. A claim is missing, malformed, or a GUID.
- `DateTime` calendar, `Kind` and time-zone semantics are not modelled. A timestamp is its tick count, and `.Date` truncates to a multiple of the ticks per day.
- Null titles are not modelled for `GetTaskByTitle`, `DeleteExistingTask` and `EditATask`. Their title comes from a route segment or a validated body and is a non-null string. Null is modelled for the filter's `string?` title (`TasksController.cs:203`). It is also modelled for the registration fields: they are declared `public required string` (`RegisterUser.cs:9`, `:13`), but model binding can still produce null, which `[Required]` rejects.
- TasksController.WithDefaultStatus: models the status default by what the branch at `TasksController.cs:114-117` is for, not by what it does in C#. `MyTask.Status` is a non-nullable enum, so `task.Status.ToString()` is never empty and the branch never runs; an omitted status binds to the enum's zero member instead. The model agrees with the C# behaviour on two assumptions that this model cannot check: `Pending` is the zero member of `CustomTaskStatus`, and `MyTask` gives `Status` no initializer. The declarations of `CustomTaskStatus` and `MyTask` are not part of this model.
- The services behind `IGetAllTasks`, `ICreateTask`, `IGetTaskByTitle`, `IDeleteTask`, `IEditTask`, `IGetByUserID` and `IUserExistsOrNot` are not modelled; their implementations are not part of this model. They are taken to forward to the repository operation of the same purpose. User existence is taken to be membership of the owner id in the user table.
- `GetAllUsers` (`TasksController.cs:238-250`) is not modelled. It only forwards to a user service that is not part of this model.
- Authentication, token issuance and password hashing are not modelled; none of it is in the modelled code.
