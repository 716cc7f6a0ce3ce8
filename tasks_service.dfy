/**
 * TasksService: task creation, listing, lookup, partial update and
 * deletion, all scoped to the projects the caller owns.
 */
module TasksService {
  import opened Common
  import opened Validation
  import opened TaskEntity
  import ProjectEntity
  import UserEntity
  import TaskDto
  import Database

  const TaskNotFound: Exception := NotFound("Task not found")
  const ProjectNotFound: Exception := NotFound("Project not found")
  /** What the database answers when an update writes null into the NOT NULL `priority` column. */
  const PriorityNotNull: Exception := QueryFailed("null value in column \"priority\" violates not-null constraint")

  /** The service's status map: each DTO member to the storage status of the same spelling. */
  function ToTaskStatus(e: TaskDto.TaskStatusEnum): (s: TaskStatus)
    ensures StatusName(s) == TaskDto.EnumValue(e)
  {
    match e
    case Pending => TaskStatus.Pending
    case InProgress => TaskStatus.InProgress
    case Completed => TaskStatus.Completed
    case Blocked => TaskStatus.Blocked
  }

  /** The caller owns project `projectId` (the `where { id, createdBy: { id: userId } }` lookup finds it). */
  predicate OwnsProject(projects: map<int, ProjectEntity.Project>, projectId: int, userId: int)
  {
    projectId in projects && projects[projectId].createdBy == userId
  }

  /** A task is in the caller's scope when the caller owns its project. */
  predicate InScope(projects: map<int, ProjectEntity.Project>, t: Task, userId: int)
  {
    OwnsProject(projects, t.project, userId)
  }

  /** `userRepository.findOne({ where: { id } })`: the user's id if that row exists, else null. */
  function FindUser(users: map<int, UserEntity.User>, id: int): (r: Option<int>)
    ensures r.Some? <==> id in users
    ensures r.Some? ==> r.value == id
  {
    if id in users then Some(id) else None
  }

  /** `assignedUserId` is truthy: present, not null and not 0. */
  predicate AssigneeGiven(f: Field<int>)
  {
    f.Present? && f.value != 0
  }

  /**
   * The query parameters of `GET /tasks`, already converted to the column
   * types; `None` stands for a parameter that is absent or empty (falsy).
   */
  datatype Filters = Filters(status: Option<string>, priority: Option<int>, deadlineFrom: Option<int>, deadlineTo: Option<int>)

  const NoFilters: Filters := Filters(None, None, None, None)

  /** The conditional `andWhere` clauses: status and priority by equality, the deadline range only with both bounds. */
  predicate Matches(t: Task, f: Filters)
  {
    && (f.status.Some? ==> StatusName(t.status) == f.status.value)
    && (f.priority.Some? ==> t.priority == f.priority.value)
    && (f.deadlineFrom.Some? && f.deadlineTo.Some? ==> f.deadlineFrom.value <= t.deadline <= f.deadlineTo.value)
  }

  /**
   * `findAll`: the tasks of the caller's projects that pass every filter
   * that was supplied (the order of the rows is not specified).
   */
  function FindAll(tasks: map<int, Task>, projects: map<int, ProjectEntity.Project>, userId: int, f: Filters): (r: set<Task>)
    ensures forall t :: t in r ==> t in tasks.Values && InScope(projects, t, userId)
    ensures forall t :: t in r && f.status.Some? ==> StatusName(t.status) == f.status.value
    ensures forall t :: t in r && f.priority.Some? ==> t.priority == f.priority.value
    ensures forall t :: t in r && f.deadlineFrom.Some? && f.deadlineTo.Some? ==>
              f.deadlineFrom.value <= t.deadline <= f.deadlineTo.value
    ensures forall t :: t in tasks.Values && InScope(projects, t, userId) && Matches(t, f) ==> t in r
  {
    set t | t in tasks.Values && InScope(projects, t, userId) && Matches(t, f)
  }

  /**
   * `findOne`: the task with that id when the caller owns its project; a
   * missing id and another user's task give the same NotFound.
   */
  function FindOne(tasks: map<int, Task>, projects: map<int, ProjectEntity.Project>, id: int, userId: int): (r: Result<Task>)
    ensures r.Success? <==> id in tasks && InScope(projects, tasks[id], userId)
    ensures r.Success? ==> r.value == tasks[id]
    ensures r.Failure? ==> r.error == TaskNotFound
  {
    if id in tasks && InScope(projects, tasks[id], userId) then Success(tasks[id]) else Failure(TaskNotFound)
  }

  /** Without filters, `findAll` lists a stored task exactly when `findOne` returns it to the same caller. */
  lemma FindAllAgreesWithFindOne(tasks: map<int, Task>, projects: map<int, ProjectEntity.Project>, userId: int, id: int)
    requires id in tasks
    ensures tasks[id] in FindAll(tasks, projects, userId, NoFilters) <==> FindOne(tasks, projects, id, userId) == Success(tasks[id])
  {
  }

  /** Filters only narrow the unfiltered list. */
  lemma FiltersNarrow(tasks: map<int, Task>, projects: map<int, ProjectEntity.Project>, userId: int, f: Filters)
    ensures FindAll(tasks, projects, userId, f) <= FindAll(tasks, projects, userId, NoFilters)
  {
  }

  /** A single deadline bound is ignored: the result is as if neither bound were given. */
  lemma OneDeadlineBoundIgnored(tasks: map<int, Task>, projects: map<int, ProjectEntity.Project>, userId: int, f: Filters)
    requires f.deadlineFrom.None? || f.deadlineTo.None?
    ensures FindAll(tasks, projects, userId, f) == FindAll(tasks, projects, userId, f.(deadlineFrom := None, deadlineTo := None))
  {
  }

  /** With both bounds, a task of the caller's is listed exactly when its deadline lies in the range, ends included. */
  lemma DeadlineRangeInclusive(tasks: map<int, Task>, projects: map<int, ProjectEntity.Project>, userId: int,
                               t: Task, from: int, to: int)
    requires t in tasks.Values && InScope(projects, t, userId)
    ensures t in FindAll(tasks, projects, userId, Filters(None, None, Some(from), Some(to))) <==> from <= t.deadline <= to
  {
  }

  /**
   * `findOne` does not reveal other users' tasks: removing a task the
   * caller does not own from the table changes nothing the caller sees.
   */
  lemma FindOneHidesOtherOwners(tasks: map<int, Task>, projects: map<int, ProjectEntity.Project>, id: int, userId: int)
    requires id in tasks && !InScope(projects, tasks[id], userId)
    ensures FindOne(tasks, projects, id, userId) == FindOne(tasks - {id}, projects, id, userId)
  {
  }

  /**
   * `create`: NotFound("Project not found") and no new row unless the caller
   * owns the target project; otherwise one new task with the defaults
   * applied (status pending, priority 1 when none or 0 is given) and an
   * assignee that is null unless a non-zero `assignedUserId` names an
   * existing user. `now` is the database clock, `toDay` the conversion of
   * the deadline string to a date.
   */
  method Create(db: Database.Store, dto: TaskDto.CreateTaskDto, userId: int, now: int, toDay: string -> int)
    returns (r: Result<Task>)
    requires db.Valid()
    requires dto.priority.Present? ==> 1 <= dto.priority.value <= 5  // the pipe's @Min(1) @Max(5)
    modifies db
    ensures db.Valid()
    ensures db.users == old(db.users) && db.projects == old(db.projects) && db.nextProjectId == old(db.nextProjectId)
    ensures db.nextUserId == old(db.nextUserId)
    ensures r.Failure? <==> !OwnsProject(old(db.projects), dto.projectId, userId)
    ensures r.Failure? ==> r.error == ProjectNotFound && db.tasks == old(db.tasks) && db.nextTaskId == old(db.nextTaskId)
    ensures r.Success? ==>
      && r.value.id == old(db.nextTaskId) && r.value.id !in old(db.tasks)
      && db.tasks == old(db.tasks)[r.value.id := r.value]
      && db.nextTaskId == old(db.nextTaskId) + 1
      && r.value.title == dto.title
      && r.value.description == Nullable(dto.description)
      && r.value.status == (if dto.status.Present? then ToTaskStatus(dto.status.value) else DefaultStatus)
      && r.value.priority == (if dto.priority.Present? && dto.priority.value != 0 then dto.priority.value else DefaultPriority)
      && r.value.deadline == toDay(dto.deadline)
      && r.value.createdAt == now
      && r.value.project == dto.projectId
      && r.value.assignedUser == (if AssigneeGiven(dto.assignedUserId) then FindUser(old(db.users), dto.assignedUserId.value) else None)
  {
    if !OwnsProject(db.projects, dto.projectId, userId) {
      return Failure(ProjectNotFound);
    }
    var assignee: Option<int> := None;
    if AssigneeGiven(dto.assignedUserId) {
      assignee := FindUser(db.users, dto.assignedUserId.value);
    }
    var status := if dto.status.Present? then ToTaskStatus(dto.status.value) else DefaultStatus;
    var priority := if dto.priority.Present? && dto.priority.value != 0 then dto.priority.value else DefaultPriority;
    var task := Task(db.nextTaskId, dto.title, Nullable(dto.description), status, priority,
                     toDay(dto.deadline), now, assignee, dto.projectId);
    ghost var before := db.tasks;
    db.tasks := db.tasks[task.id := task];
    db.nextTaskId := db.nextTaskId + 1;
    forall k | k in db.tasks
      ensures 1 <= k < db.nextTaskId && db.tasks[k].id == k && 1 <= db.tasks[k].priority <= 5
      ensures db.tasks[k].project in db.projects
      ensures db.tasks[k].assignedUser.Some? ==> db.tasks[k].assignedUser.value in db.users
    {
      if k != task.id {
        assert k in before;
      }
    }
    r := Success(task);
  }

  /**
   * `update`: NotFound("Task not found") and no change unless the caller
   * owns the task's project; otherwise the fields are assigned one by one
   * (the assignee only for a non-zero `assignedUserId`, null when that user
   * does not exist; description and priority only when not undefined;
   * status only when a status is given) and the task's project, id and
   * creation time never change. A null priority reaches the NOT NULL
   * column and the save fails.
   */
  method Update(db: Database.Store, id: int, dto: TaskDto.UpdateTaskDto, userId: int, toDay: string -> int)
    returns (r: Result<Task>)
    requires db.Valid()
    requires dto.priority.Present? ==> 1 <= dto.priority.value <= 5  // the pipe's @Min(1) @Max(5)
    modifies db
    ensures db.Valid()
    ensures db.users == old(db.users) && db.projects == old(db.projects)
    ensures db.nextUserId == old(db.nextUserId) && db.nextProjectId == old(db.nextProjectId) && db.nextTaskId == old(db.nextTaskId)
    ensures FindOne(old(db.tasks), old(db.projects), id, userId).Failure? ==>
              r == Failure(TaskNotFound) && db.tasks == old(db.tasks)
    ensures FindOne(old(db.tasks), old(db.projects), id, userId).Success? && dto.priority.Null? ==>
              r == Failure(PriorityNotNull) && db.tasks == old(db.tasks)
    ensures FindOne(old(db.tasks), old(db.projects), id, userId).Success? && !dto.priority.Null? ==>
      var t := old(db.tasks)[id];
      && r.Success? && db.tasks == old(db.tasks)[id := r.value]
      && r.value.id == t.id && r.value.project == t.project && r.value.createdAt == t.createdAt
      && r.value.assignedUser == (if AssigneeGiven(dto.assignedUserId) then FindUser(old(db.users), dto.assignedUserId.value) else t.assignedUser)
      && r.value.title == dto.title
      && r.value.description == Patch(t.description, dto.description)
      && r.value.status == (if dto.status.Present? then ToTaskStatus(dto.status.value) else t.status)
      && r.value.priority == (if dto.priority.Present? then dto.priority.value else t.priority)
      && r.value.deadline == toDay(dto.deadline)
  {
    var found := FindOne(db.tasks, db.projects, id, userId);
    if found.Failure? {
      return Failure(found.error);
    }
    var task := found.value;
    if AssigneeGiven(dto.assignedUserId) {
      task := task.(assignedUser := FindUser(db.users, dto.assignedUserId.value));
    }
    task := task.(title := dto.title);
    task := task.(description := Patch(task.description, dto.description));
    // A null status maps to undefined, which the save leaves out.
    if dto.status.Present? {
      task := task.(status := ToTaskStatus(dto.status.value));
    }
    if dto.priority.Null? {
      return Failure(PriorityNotNull);
    }
    if dto.priority.Present? {
      task := task.(priority := dto.priority.value);
    }
    task := task.(deadline := toDay(dto.deadline));
    db.tasks := db.tasks[id := task];
    r := Success(task);
  }

  /** `remove`: NotFound("Task not found") and no change unless the caller owns the task; otherwise exactly that task is deleted. */
  method Remove(db: Database.Store, id: int, userId: int) returns (r: Result<()>)
    requires db.Valid()
    modifies db
    ensures db.Valid()
    ensures db.users == old(db.users) && db.projects == old(db.projects)
    ensures db.nextUserId == old(db.nextUserId) && db.nextProjectId == old(db.nextProjectId) && db.nextTaskId == old(db.nextTaskId)
    ensures r.Failure? <==> FindOne(old(db.tasks), old(db.projects), id, userId).Failure?
    ensures r.Failure? ==> r.error == TaskNotFound && db.tasks == old(db.tasks)
    ensures r.Success? ==> id in old(db.tasks) && db.tasks == old(db.tasks) - {id}
  {
    var found := FindOne(db.tasks, db.projects, id, userId);
    if found.Failure? {
      return Failure(found.error);
    }
    db.tasks := db.tasks - {id};
    r := Success(());
  }
}
