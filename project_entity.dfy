/** The `projects` table: one row per project, owned by the user who created it. */
module ProjectEntity {
  import opened Common

  /** The storage-level status column, a closed enumeration. */
  datatype ProjectStatus = Active | Completed | OnHold

  const StatusNames: seq<string> := ["active", "completed", "on-hold"]

  /** The column default. */
  const DefaultStatus: ProjectStatus := Active

  /** The text stored in the enum column for a status. */
  function StatusName(s: ProjectStatus): (name: string)
    ensures name in StatusNames
  {
    match s
    case Active => "active"
    case Completed => "completed"
    case OnHold => "on-hold"
  }

  /** Distinct statuses are stored under distinct names. */
  lemma StatusNameInjective(a: ProjectStatus, b: ProjectStatus)
    requires StatusName(a) == StatusName(b)
    ensures a == b
  {
  }

  /**
   * A stored project. `description` and `deadline` are nullable columns;
   * `createdBy` is the id of the one owning user. The one-to-many `tasks`
   * relation is not a column: it is the set of task rows that reference
   * this project (see `Database.TasksOf`).
   */
  datatype Project = Project(
    id: int,
    name: string,
    description: Option<string>,
    status: ProjectStatus,
    createdAt: int,
    deadline: Option<int>,
    createdBy: int)
}
