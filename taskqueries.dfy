/** The read queries of the task repository: LINQ `Where` filters over the task table,
    look-ups by title and the inner join of tasks with users. Every query is a
    function of the two tables, so it leaves the store as it was. */
module TaskQueries {

  import opened Wrappers
  import opened Domain
  import opened Strings

  /** LINQ `Where`: the tasks of `ts` that satisfy `p`, in table order. */
  function Where(ts: seq<MyTask>, p: MyTask -> bool): (r: seq<MyTask>)
    ensures |r| <= |ts|
    ensures forall t :: t in r <==> t in ts && p(t)
    ensures r == [] <==> forall t :: t in ts ==> !p(t)
  {
    if ts == [] then [] else (if p(ts[0]) then [ts[0]] else []) + Where(ts[1..], p)
  }

  /** `Where` keeps every copy of a passing task and no copy of a failing one. */
  lemma {:induction false} WhereMultiplicity(ts: seq<MyTask>, p: MyTask -> bool)
    ensures forall x :: multiset(Where(ts, p))[x] == if p(x) then multiset(ts)[x] else 0
  {
    if ts != [] {
      WhereMultiplicity(ts[1..], p);
      assert ts == [ts[0]] + ts[1..];
    }
  }

  /** A filter every task passes keeps the whole table, order included. */
  lemma {:induction false} WhereAllPass(ts: seq<MyTask>, p: MyTask -> bool)
    requires forall t :: t in ts ==> p(t)
    ensures Where(ts, p) == ts
  {
    if ts != [] {
      WhereAllPass(ts[1..], p);
    }
  }

  /** `Where` depends only on the values of its predicate. */
  lemma {:induction false} WhereSamePredicate(ts: seq<MyTask>, p: MyTask -> bool, q: MyTask -> bool)
    requires forall t :: p(t) == q(t)
    ensures Where(ts, p) == Where(ts, q)
  {
    if ts != [] {
      WhereSamePredicate(ts[1..], p, q);
    }
  }

  /** Two successive `Where` calls are one `Where` with the conjunction of the two
      predicates: this is why rebinding `query` filter by filter gives the combined
      filter. */
  lemma {:induction false} WhereTwice(ts: seq<MyTask>, p: MyTask -> bool, q: MyTask -> bool, pq: MyTask -> bool)
    requires forall t :: pq(t) == (p(t) && q(t))
    ensures Where(Where(ts, p), q) == Where(ts, pq)
  {
    if ts != [] {
      WhereTwice(ts[1..], p, q, pq);
      assert Where(ts, p) == (if p(ts[0]) then [ts[0]] else []) + Where(ts[1..], p);
      if p(ts[0]) {
        assert Where(ts, p)[0] == ts[0];
        assert Where(ts, p)[1..] == Where(ts[1..], p);
      } else {
        assert Where(ts, p) == Where(ts[1..], p);
      }
    }
  }

  /** `FirstOrDefault(p)` as an index: the first position whose task satisfies `p`. */
  function FirstIndex(ts: seq<MyTask>, p: MyTask -> bool): (r: Option<nat>)
    ensures r.Some? ==> r.value < |ts| && p(ts[r.value])
    ensures r.Some? ==> forall j :: 0 <= j < r.value ==> !p(ts[j])
    ensures r.None? <==> forall j :: 0 <= j < |ts| ==> !p(ts[j])
  {
    if ts == [] then None
    else if p(ts[0]) then Some(0)
    else match FirstIndex(ts[1..], p)
      case None => None
      case Some(i) => Some(i + 1)
  }

  /** No two tasks share a Title: the table's primary key. */
  ghost predicate UniqueTitles(ts: seq<MyTask>) {
    forall i, j :: 0 <= i < |ts| && 0 <= j < |ts| && ts[i].title == ts[j].title ==> i == j
  }

  /** No two users share a UserId. */
  ghost predicate UniqueUserIds(us: seq<User>) {
    forall i, j :: 0 <= i < |us| && 0 <= j < |us| && us[i].userId == us[j].userId ==> i == j
  }

  /** The position of the task whose Title equals `title` exactly (`t.Title == title`). */
  function TitleIndex(ts: seq<MyTask>, title: string): (r: Option<nat>)
    ensures r.Some? ==> r.value < |ts| && ts[r.value].title == title
    ensures r.None? <==> forall t :: t in ts ==> t.title != title
  {
    FirstIndex(ts, (t: MyTask) => t.title == title)
  }

  /** With unique titles the exact-title index is the only position holding that title. */
  lemma TitleIndexUnique(ts: seq<MyTask>, i: nat)
    requires UniqueTitles(ts) && i < |ts|
    ensures TitleIndex(ts, ts[i].title) == Some(i)
  {
  }

  /** `GetTaskByTitle`: nothing for a blank title, otherwise the first task whose Title
      is exactly `title`, or nothing when there is none. */
  function GetTaskByTitle(ts: seq<MyTask>, title: string): (r: Option<MyTask>)
    ensures IsBlank(title) ==> r.None?
    ensures !IsBlank(title) ==> (r.Some? <==> exists t :: t in ts && t.title == title)
    ensures r.Some? ==> r.value in ts && r.value.title == title
  {
    if IsBlank(title) then None
    else match TitleIndex(ts, title)
      case None => None
      case Some(i) => Some(ts[i])
  }

  /** The first task whose Title equals `title` up to letter case. */
  function TitleIndexIgnoreCase(ts: seq<MyTask>, title: string): (r: Option<nat>)
    ensures r.Some? ==> r.value < |ts| && EqualsIgnoreCase(ts[r.value].title, title)
    ensures r.Some? ==> forall j :: 0 <= j < r.value ==> !EqualsIgnoreCase(ts[j].title, title)
    ensures r.None? <==> forall t :: t in ts ==> !EqualsIgnoreCase(t.title, title)
  {
    FirstIndex(ts, (t: MyTask) => EqualsIgnoreCase(t.title, title))
  }

  /** Whenever a task has exactly the given title, the case-insensitive look-up of the
      status update finds a task too, at that position or at an earlier case variant. */
  lemma ExactTitleFoundIgnoringCase(ts: seq<MyTask>, title: string)
    requires TitleIndex(ts, title).Some?
    ensures TitleIndexIgnoreCase(ts, title).Some?
    ensures TitleIndexIgnoreCase(ts, title).value <= TitleIndex(ts, title).value
  {
    var i := TitleIndex(ts, title).value;
    EqualImpliesEqualsIgnoreCase(ts[i].title, title);
  }

  /** `GetAllTasksByStatus`: exactly the tasks with that status. */
  function ByStatus(ts: seq<MyTask>, status: CustomTaskStatus): (r: seq<MyTask>)
    ensures forall t :: t in r <==> t in ts && t.status == status
  {
    Where(ts, (t: MyTask) => t.status == status)
  }

  /** `GetAllTasksByUserID`: exactly the tasks owned by `userId`; unowned tasks never. */
  function ByUserId(ts: seq<MyTask>, userId: Guid): (r: seq<MyTask>)
    ensures forall t :: t in r <==> t in ts && t.userId == Some(userId)
  {
    Where(ts, (t: MyTask) => t.userId == Some(userId))
  }

  /** `GetAllTasksByDueDate`: the tasks whose due date, as a calendar date, is not after
      the calendar date of `dueDate`. */
  function ByDueDate(ts: seq<MyTask>, dueDate: Ticks): (r: seq<MyTask>)
    ensures forall t :: t in r <==> t in ts && DateOf(t.dueDate) <= DateOf(dueDate)
  {
    Where(ts, (t: MyTask) => DateOf(t.dueDate) <= DateOf(dueDate))
  }

  /** Comparing calendar dates is comparing against the end of the ceiling's day:
      a task is in `ByDueDate` iff it is due before the midnight that ends that day,
      whatever the time of day of either timestamp. */
  lemma DateCeilingIsEndOfDay(x: Ticks, d: Ticks)
    ensures DateOf(x) <= DateOf(d) <==> x < DateOf(d) + TicksPerDay
  {
    var k := TicksPerDay;
    var qx, qd := x / k, d / k;
    assert DateOf(x) == qx * k && DateOf(d) == qd * k;
    if qx <= qd {
      assert x < qx * k + k;
      assert qx * k + k <= qd * k + k;
    } else {
      assert qd + 1 <= qx;
      assert (qd + 1) * k <= qx * k;
    }
  }

  lemma ByDueDateIsEndOfDay(ts: seq<MyTask>, dueDate: Ticks)
    ensures forall t :: t in ByDueDate(ts, dueDate) <==> t in ts && t.dueDate < DateOf(dueDate) + TicksPerDay
  {
    forall t | t in ts {
      DateCeilingIsEndOfDay(t.dueDate, dueDate);
    }
  }

  /** One task, due at noon of day `k`, with the date-ceiling and full-timestamp
      filters at eight in the morning of that same day: the date filter keeps it, the
      timestamp filter of the multi-criteria query does not. */
  lemma DateAndTimestampCeilingsDiffer(t: MyTask, ceiling: Ticks, k: nat)
    requires t.dueDate == k * TicksPerDay + 12 * 36000000000
    requires ceiling == k * TicksPerDay + 8 * 36000000000
    ensures t in ByDueDate([t], ceiling)
    ensures !Matches(TaskFilter(None, None, Some(ceiling), None), t)
  {
    assert DateOf(t.dueDate) == k * TicksPerDay;
    assert DateOf(ceiling) == k * TicksPerDay;
  }

  /** The optional criteria of the multi-criteria query. */
  datatype TaskFilter = TaskFilter(
    owner: Option<Guid>,
    title: Option<string>,
    dueBefore: Option<Ticks>,
    status: Option<CustomTaskStatus>)

  /** The filter with no criterion at all. */
  const NoFilter := TaskFilter(None, None, None, None)

  /** `string.IsNullOrEmpty` on an optional string. */
  predicate IsNullOrEmpty(s: Option<string>) {
    s.None? || s.value == ""
  }

  /** Task `t` passes every criterion that `f` supplies: the owner is equal, the title
      contains the given text (a null or empty text is no criterion), the due timestamp
      is at or before the ceiling, the status is equal. */
  predicate Matches(f: TaskFilter, t: MyTask) {
    && (f.owner.Some? ==> t.userId == Some(f.owner.value))
    && (!IsNullOrEmpty(f.title) ==> Contains(t.title, f.title.value))
    && (f.dueBefore.Some? ==> t.dueDate <= f.dueBefore.value)
    && (f.status.Some? ==> t.status == f.status.value)
  }

  /** Task `t` belongs to user `u`. */
  predicate OwnedBy(t: MyTask, u: User) {
    t.userId == Some(u.userId)
  }

  /** Some user of `us` owns `t`: the condition for `t` to survive the inner join. */
  predicate Resolves(t: MyTask, us: seq<User>) {
    exists u :: u in us && OwnedBy(t, u)
  }

  /** The projection `select new MyTaskWithUsername { ... }`. */
  function Enrich(t: MyTask, u: User): (row: MyTaskWithUsername)
    ensures row.title == t.title && row.description == t.description
    ensures row.dueDate == t.dueDate && row.status == t.status
    ensures row.userName == u.userName
  {
    MyTaskWithUsername(t.title, t.description, t.dueDate, t.status, u.userName)
  }

  /** The join rows of one task: one per user of `us` that owns it. */
  function Rows(t: MyTask, us: seq<User>): (r: seq<MyTaskWithUsername>)
    ensures forall row :: row in r <==> exists u :: u in us && OwnedBy(t, u) && row == Enrich(t, u)
  {
    if us == [] then []
    else (if OwnedBy(t, us[0]) then [Enrich(t, us[0])] else []) + Rows(t, us[1..])
  }

  /** `join user in users on task.UserId equals user.UserId`: for each task in order,
      the rows of the users that own it. */
  function Join(ts: seq<MyTask>, us: seq<User>): (r: seq<MyTaskWithUsername>)
    ensures forall row :: row in r <==>
      exists t, u :: t in ts && u in us && OwnedBy(t, u) && row == Enrich(t, u)
  {
    if ts == [] then [] else Rows(ts[0], us) + Join(ts[1..], us)
  }

  /** `GetAllTasksIncludingUsername`: every task joined with its owner. */
  function AllWithUserNames(ts: seq<MyTask>, us: seq<User>): (r: seq<MyTaskWithUsername>)
    ensures forall row :: row in r <==>
      exists t, u :: t in ts && u in us && OwnedBy(t, u) && row == Enrich(t, u)
  {
    Join(ts, us)
  }

  /** `getTasksByDuedateAndStatus`: the tasks passing `f`, joined with their owners. */
  function FilterJoined(ts: seq<MyTask>, us: seq<User>, f: TaskFilter): (r: seq<MyTaskWithUsername>)
    ensures forall row :: row in r <==>
      exists t, u :: t in ts && Matches(f, t) && u in us && OwnedBy(t, u) && row == Enrich(t, u)
  {
    Join(Where(ts, (t: MyTask) => Matches(f, t)), us)
  }

  /** With no owner, due date or status and a null or empty title, the filtered query is
      the unfiltered join, as a sequence. */
  lemma FilterWithoutCriteriaIsAll(ts: seq<MyTask>, us: seq<User>, title: Option<string>)
    requires IsNullOrEmpty(title)
    ensures FilterJoined(ts, us, TaskFilter(None, title, None, None)) == AllWithUserNames(ts, us)
  {
    WhereAllPass(ts, (t: MyTask) => Matches(TaskFilter(None, title, None, None), t));
  }

  /** The inner join drops unowned and orphaned tasks: joining the whole table gives the
      same rows, in the same order, as joining only the tasks whose owner exists. */
  lemma {:induction false} JoinDropsOrphans(ts: seq<MyTask>, us: seq<User>)
    ensures Join(ts, us) == Join(Where(ts, (t: MyTask) => Resolves(t, us)), us)
  {
    if ts != [] {
      JoinDropsOrphans(ts[1..], us);
      var p := (t: MyTask) => Resolves(t, us);
      if !Resolves(ts[0], us) {
        OrphanHasNoRows(ts[0], us);
        assert Where(ts, p) == Where(ts[1..], p);
      } else {
        var w := Where(ts, p);
        assert w == [ts[0]] + Where(ts[1..], p);
        assert w[0] == ts[0] && w[1..] == Where(ts[1..], p);
      }
    }
  }

  /** A task that no user owns has no join row. */
  lemma {:induction false} OrphanHasNoRows(t: MyTask, us: seq<User>)
    requires !Resolves(t, us)
    ensures Rows(t, us) == []
  {
    if us != [] {
      assert us[0] in us;
      assert !Resolves(t, us[1..]) by {
        forall u | u in us[1..] ensures !OwnedBy(t, u) {
          assert u in us;
        }
      }
      OrphanHasNoRows(t, us[1..]);
    }
  }

  /** A task that no user owns contributes no row to either joined query, even when it
      passes every criterion of the filter: no row carries its title. */
  lemma OrphanNotListed(ts: seq<MyTask>, us: seq<User>, f: TaskFilter, i: nat)
    requires UniqueTitles(ts) && i < |ts| && !Resolves(ts[i], us)
    ensures forall row :: row in AllWithUserNames(ts, us) ==> row.title != ts[i].title
    ensures forall row :: row in FilterJoined(ts, us, f) ==> row.title != ts[i].title
  {
  }

  /** A task has exactly one join row when its owner exists (user ids being unique), and
      none otherwise. */
  lemma {:induction false} RowsCount(t: MyTask, us: seq<User>)
    requires UniqueUserIds(us)
    ensures |Rows(t, us)| == if Resolves(t, us) then 1 else 0
  {
    if us != [] {
      assert UniqueUserIds(us[1..]) by {
        forall i, j | 0 <= i < |us| - 1 && 0 <= j < |us| - 1 && us[1..][i].userId == us[1..][j].userId
          ensures i == j
        {
          assert us[i + 1].userId == us[j + 1].userId;
        }
      }
      RowsCount(t, us[1..]);
      if OwnedBy(t, us[0]) {
        forall u | u in us[1..] ensures !OwnedBy(t, u) {
          var j :| 0 <= j < |us[1..]| && us[1..][j] == u;
          assert us[j + 1] == u;
        }
        assert !Resolves(t, us[1..]);
      } else {
        assert Resolves(t, us) == Resolves(t, us[1..]) by {
          if Resolves(t, us) {
            var u :| u in us && OwnedBy(t, u);
            assert u != us[0];
            assert u in us[1..];
          }
        }
      }
    }
  }

  /** The join is empty exactly when no task has an existing owner. */
  lemma {:induction false} JoinEmpty(ts: seq<MyTask>, us: seq<User>)
    ensures Join(ts, us) == [] <==> forall t :: t in ts ==> !Resolves(t, us)
  {
    if ts != [] {
      JoinEmpty(ts[1..], us);
      if Resolves(ts[0], us) {
        var u :| u in us && OwnedBy(ts[0], u);
        assert Enrich(ts[0], u) in Rows(ts[0], us);
      } else {
        OrphanHasNoRows(ts[0], us);
      }
    }
  }

  /** With unique user ids the join yields exactly one row per task whose owner exists. */
  lemma {:induction false} JoinCount(ts: seq<MyTask>, us: seq<User>)
    requires UniqueUserIds(us)
    ensures |Join(ts, us)| == |Where(ts, (t: MyTask) => Resolves(t, us))|
  {
    if ts != [] {
      RowsCount(ts[0], us);
      JoinCount(ts[1..], us);
    }
  }
}
