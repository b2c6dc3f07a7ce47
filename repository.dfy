/** The task repository as a store object: the task table and the user table as two
    sequences that the mutating operations reassign, one commit per operation. */
module Repository {

  import opened Wrappers
  import opened Domain
  import opened Strings
  import opened TaskQueries

  /** The exceptions the store operations raise: a primary-key violation on save
      (`DbUpdateException`) and a missing title on edit (`KeyNotFoundException`). */
  datatype StoreError = DuplicateKey | KeyNotFound

  /** The partial-update rule of `EditATask`: Description, DueDate and Status are taken
      from the input, the Title is kept, and the owner is replaced only when the input
      names one. */
  function ApplyEdit(existing: MyTask, input: MyTask): (r: MyTask)
    ensures r.title == existing.title
    ensures r.description == input.description
    ensures r.dueDate == input.dueDate
    ensures r.status == input.status
    ensures input.userId.Some? ==> r.userId == input.userId
    ensures input.userId.None? ==> r.userId == existing.userId
  {
    var owner := if input.userId.Some? then input.userId else existing.userId;
    existing.(description := input.description, dueDate := input.dueDate,
              status := input.status, userId := owner)
  }

  /** The table without the task at position `i`. */
  function RemoveAt(ts: seq<MyTask>, i: nat): (r: seq<MyTask>)
    requires i < |ts|
    ensures |r| == |ts| - 1
    ensures forall j :: 0 <= j < i ==> r[j] == ts[j]
    ensures forall j :: i <= j < |r| ==> r[j] == ts[j + 1]
  {
    ts[..i] + ts[i + 1..]
  }

  /** Appending a task whose title is new keeps titles unique. */
  lemma AppendKeepsTitlesUnique(ts: seq<MyTask>, t: MyTask)
    requires UniqueTitles(ts) && TitleIndex(ts, t.title).None?
    ensures UniqueTitles(ts + [t])
  {
    forall k | 0 <= k < |ts| ensures ts[k].title != t.title {
      assert ts[k] in ts;
    }
  }

  /** Replacing a task by one with the same title keeps titles unique. */
  lemma ReplaceKeepsTitlesUnique(ts: seq<MyTask>, i: nat, t: MyTask)
    requires UniqueTitles(ts) && i < |ts| && t.title == ts[i].title
    ensures UniqueTitles(ts[i := t])
  {
  }

  /** Removing a task keeps titles unique, and with unique titles no task with the
      removed title is left. */
  lemma RemoveAtDropsTitle(ts: seq<MyTask>, i: nat)
    requires UniqueTitles(ts) && i < |ts|
    ensures UniqueTitles(RemoveAt(ts, i))
    ensures TitleIndex(RemoveAt(ts, i), ts[i].title).None?
  {
    var r := RemoveAt(ts, i);
    forall a, b | 0 <= a < |r| && 0 <= b < |r| && r[a].title == r[b].title
      ensures a == b
    {
      var a' := if a < i then a else a + 1;
      var b' := if b < i then b else b + 1;
      assert r[a] == ts[a'] && r[b] == ts[b'];
    }
    forall t | t in r ensures t.title != ts[i].title {
      var k :| 0 <= k < |r| && r[k] == t;
      var k' := if k < i then k else k + 1;
      assert r[k] == ts[k'];
    }
  }

  class TaskRepository {
    /** `AllTasksTable`, in store order. */
    var tasks: seq<MyTask>
    /** `AllUsersTable`, in store order. */
    var users: seq<User>

    /** The keys of both tables are unique, as the database enforces. */
    ghost predicate Valid()
      reads this
    {
      UniqueTitles(tasks) && UniqueUserIds(users)
    }

    constructor (tasks0: seq<MyTask>, users0: seq<User>)
      requires UniqueTitles(tasks0) && UniqueUserIds(users0)
      ensures Valid() && tasks == tasks0 && users == users0
    {
      tasks := tasks0;
      users := users0;
    }

    /** `AddNewTask`: add the task and save. A title already in the table violates the
        primary key: the save fails and the table is as it was. Otherwise the task is
        appended and returned as given. */
    method AddNewTask(task: MyTask) returns (r: Result<MyTask, StoreError>)
      requires Valid()
      modifies this
      ensures Valid() && users == old(users)
      ensures TitleIndex(old(tasks), task.title).Some? ==>
        r == Failure(DuplicateKey) && tasks == old(tasks)
      ensures TitleIndex(old(tasks), task.title).None? ==>
        r == Success(task) && tasks == old(tasks) + [task]
    {
      if TitleIndex(tasks, task.title).Some? {
        r := Failure(DuplicateKey);
      } else {
        AppendKeepsTitlesUnique(tasks, task);
        tasks := tasks + [task];
        r := Success(task);
      }
    }

    /** `UpdateTaskStatus`: the first task whose title matches up to letter case gets
        the new status and is returned; with no match nothing changes. */
    method UpdateTaskStatus(title: string, newStatus: CustomTaskStatus) returns (r: Option<MyTask>)
      requires Valid()
      modifies this
      ensures Valid() && users == old(users)
      ensures TitleIndexIgnoreCase(old(tasks), title).None? ==> r.None? && tasks == old(tasks)
      ensures TitleIndexIgnoreCase(old(tasks), title).Some? ==>
        var i := TitleIndexIgnoreCase(old(tasks), title).value;
        && tasks == old(tasks)[i := old(tasks)[i].(status := newStatus)]
        && r == Some(tasks[i])
    {
      var found := TitleIndexIgnoreCase(tasks, title);
      if found.Some? {
        var i := found.value;
        ReplaceKeepsTitlesUnique(tasks, i, tasks[i].(status := newStatus));
        tasks := tasks[i := tasks[i].(status := newStatus)];
        r := Some(tasks[i]);
      } else {
        r := None;
      }
    }

    /** `DeleteExistingTask`: remove the task `GetTaskByTitle` finds and report true;
        report false and change nothing when it finds none. After a removal the title
        is no longer in the table. */
    method DeleteExistingTask(title: string) returns (deleted: bool)
      requires Valid()
      modifies this
      ensures Valid() && users == old(users)
      ensures deleted == GetTaskByTitle(old(tasks), title).Some?
      ensures !deleted ==> tasks == old(tasks)
      ensures deleted ==>
        && TitleIndex(old(tasks), title).Some?
        && tasks == RemoveAt(old(tasks), TitleIndex(old(tasks), title).value)
      ensures GetTaskByTitle(tasks, title).None?
    {
      var task := GetTaskByTitle(tasks, title);
      if task.Some? {
        var i := TitleIndex(tasks, title).value;
        RemoveAtDropsTitle(tasks, i);
        tasks := RemoveAt(tasks, i);
        deleted := true;
      } else {
        deleted := false;
      }
    }

    /** `EditATask`: look the task up by exact title; a missing title raises
        `KeyNotFoundException` and changes nothing; otherwise the stored task is updated
        by the partial-update rule, every other task is left alone, and the updated
        stored task is returned. */
    method EditATask(input: MyTask) returns (r: Result<MyTask, StoreError>)
      requires Valid()
      modifies this
      ensures Valid() && users == old(users)
      ensures TitleIndex(old(tasks), input.title).None? ==>
        r == Failure(KeyNotFound) && tasks == old(tasks)
      ensures TitleIndex(old(tasks), input.title).Some? ==>
        var i := TitleIndex(old(tasks), input.title).value;
        && tasks == old(tasks)[i := ApplyEdit(old(tasks)[i], input)]
        && r == Success(tasks[i])
    {
      var found := TitleIndex(tasks, input.title);
      if found.None? {
        r := Failure(KeyNotFound);
      } else {
        var i := found.value;
        var edited := ApplyEdit(tasks[i], input);
        ReplaceKeepsTitlesUnique(tasks, i, edited);
        tasks := tasks[i := edited];
        r := Success(edited);
      }
    }

    /** `getTasksByDuedateAndStatus`: narrow the query one supplied criterion at a time
        (owner, title text, due timestamp, status), then join with the users. */
    method GetTasksByDueDateAndStatus(userId: Option<Guid>, dateTime: Option<Ticks>,
                                      status: Option<CustomTaskStatus>, title: Option<string>)
      returns (result: seq<MyTaskWithUsername>)
      ensures result == FilterJoined(tasks, users, TaskFilter(userId, title, dateTime, status))
      ensures forall row :: row in result <==>
        exists t, u :: t in tasks && u in users && OwnedBy(t, u) && row == Enrich(t, u)
          && (userId.Some? ==> t.userId == userId)
          && (!IsNullOrEmpty(title) ==> Contains(t.title, title.value))
          && (dateTime.Some? ==> t.dueDate <= dateTime.value)
          && (status.Some? ==> t.status == status.value)
    {
      // `applied` is the filter the query has been narrowed by so far.
      ghost var applied := NoFilter;
      ghost var p := (t: MyTask) => Matches(applied, t);
      WhereAllPass(tasks, p);
      var query := tasks;

      if userId.Some? {
        var q := (t: MyTask) => t.userId == Some(userId.value);
        applied := applied.(owner := userId);
        ghost var p' := (t: MyTask) => Matches(applied, t);
        WhereTwice(tasks, p, q, p');
        query, p := Where(query, q), p';
      }
      if !IsNullOrEmpty(title) {
        var q := (t: MyTask) => Contains(t.title, title.value);
        applied := applied.(title := title);
        ghost var p' := (t: MyTask) => Matches(applied, t);
        WhereTwice(tasks, p, q, p');
        query, p := Where(query, q), p';
      }
      if dateTime.Some? {
        var q := (t: MyTask) => t.dueDate <= dateTime.value;
        applied := applied.(dueBefore := dateTime);
        ghost var p' := (t: MyTask) => Matches(applied, t);
        WhereTwice(tasks, p, q, p');
        query, p := Where(query, q), p';
      }
      if status.Some? {
        var q := (t: MyTask) => t.status == status.value;
        applied := applied.(status := status);
        ghost var p' := (t: MyTask) => Matches(applied, t);
        WhereTwice(tasks, p, q, p');
        query, p := Where(query, q), p';
      }

      var f := TaskFilter(userId, title, dateTime, status);
      WhereSamePredicate(tasks, p, (t: MyTask) => Matches(f, t));
      result := Join(query, users);
    }
  }
}
