/** The `tasks` table: one row per task, attached to exactly one project. */
module TaskEntity {
  import opened Common

  /** The storage-level status column, a closed enumeration. */
  datatype TaskStatus = Pending | InProgress | Completed | Blocked

  /** The names the enum column accepts, in declaration order. */
  const StatusNames: seq<string> := ["pending", "in-progress", "completed", "blocked"]

  /** Column defaults applied when the service supplies no value. */
  const DefaultStatus: TaskStatus := Pending
  const DefaultPriority: int := 1

  /** The text stored in the enum column for a status. */
  function StatusName(s: TaskStatus): (name: string)
    ensures name in StatusNames
  {
    match s
    case Pending => "pending"
    case InProgress => "in-progress"
    case Completed => "completed"
    case Blocked => "blocked"
  }

  /** Distinct statuses are stored under distinct names. */
  lemma StatusNameInjective(a: TaskStatus, b: TaskStatus)
    requires StatusName(a) == StatusName(b)
    ensures a == b
  {
  }

  /**
   * A stored task. `description` is a nullable text column, `deadline` a
   * required date (a day number), `assignedUser` a nullable reference to a
   * user row and `project` a required reference to a project row; both
   * references are the referenced row's id.
   */
  datatype Task = Task(
    id: int,
    title: string,
    description: Option<string>,
    status: TaskStatus,
    priority: int,
    deadline: int,
    createdAt: int,
    assignedUser: Option<int>,
    project: int)
}
