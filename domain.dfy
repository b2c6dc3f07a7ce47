/** The entities of the task store: tasks, users and the joined task-with-user-name
    view, with identifiers and timestamps as integers. */
module Domain {

  import opened Wrappers

  /** A 128-bit globally unique identifier. */
  newtype Guid = x: int | 0 <= x < 0x1_0000_0000_0000_0000_0000_0000_0000_0000

  /** `Guid.Empty`, the all-zero identifier. */
  const EmptyGuid: Guid := 0

  /** The largest tick count a `DateTime` can hold (23:59:59.9999999 on 31 December 9999). */
  const MaxTicks: int := 3155378975999999999

  /** A `DateTime` as its number of 100-nanosecond ticks since 1 January 0001. */
  type Ticks = x: int | 0 <= x <= MaxTicks

  /** Ticks in one day: 24 * 60 * 60 * 10^7. */
  const TicksPerDay: int := 864000000000

  /** `DateTime.Date`: the same instant with its time of day set to midnight. */
  function DateOf(t: Ticks): (d: Ticks)
    ensures d <= t < d + TicksPerDay
    ensures d % TicksPerDay == 0
  {
    t - t % TicksPerDay
  }

  /** The status enumeration of a task. */
  datatype CustomTaskStatus = Pending | InProgress | Completed

  /** A stored task; its Title is the primary key and its owner may be unset. */
  datatype MyTask = MyTask(
    title: string,
    description: string,
    dueDate: Ticks,
    status: CustomTaskStatus,
    userId: Option<Guid>)

  /** A registered user, as far as the task core sees one. */
  datatype User = User(userId: Guid, userName: string)

  /** The joined view: a task's fields with its owner's name in place of the owner id. */
  datatype MyTaskWithUsername = MyTaskWithUsername(
    title: string,
    description: string,
    dueDate: Ticks,
    status: CustomTaskStatus,
    userName: string)
}
