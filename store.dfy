/**
 * The three repositories as in-memory tables, with the foreign keys and
 * unique constraint the schema declares.
 */
module Database {
  import opened UserEntity
  import ProjectEntity
  import TaskEntity

  type User = UserEntity.User
  type Project = ProjectEntity.Project
  type Task = TaskEntity.Task

  /** Users: keys below the serial counter, each row under its own id, within its column widths, e-mails unique. */
  predicate UsersValid(users: map<int, User>, nextId: int)
  {
    && 1 <= nextId
    && (forall id :: id in users ==> 1 <= id < nextId && users[id].id == id && FitsColumns(users[id]))
    && (forall a, b :: a in users && b in users && users[a].email == users[b].email ==> a == b)
  }

  /** Projects: keyed by id, and every project's owner exists. */
  predicate ProjectsValid(projects: map<int, Project>, users: map<int, User>, nextId: int)
  {
    && 1 <= nextId
    && forall id :: id in projects ==>
      1 <= id < nextId && projects[id].id == id && projects[id].createdBy in users
  }

  /** Tasks: keyed by id, priority within 1..5, every task's project exists, and an assignee, when set, exists. */
  predicate TasksValid(tasks: map<int, Task>, projects: map<int, Project>, users: map<int, User>, nextId: int)
  {
    && 1 <= nextId
    && forall id :: id in tasks ==>
      && 1 <= id < nextId && tasks[id].id == id
      && 1 <= tasks[id].priority <= 5
      && tasks[id].project in projects
      && (tasks[id].assignedUser.Some? ==> tasks[id].assignedUser.value in users)
  }

  /** The `tasks` relation of a project: the task rows whose `project` is that project. */
  function TasksOf(tasks: map<int, Task>, projectId: int): (r: set<Task>)
    ensures forall t :: t in r <==> t in tasks.Values && t.project == projectId
  {
    set t | t in tasks.Values && t.project == projectId
  }

  /**
   * The effect of `onDelete: 'CASCADE'` on the task table when project
   * `projectId` is deleted: every task of that project goes, every other
   * task stays as it was.
   */
  function Cascade(tasks: map<int, Task>, projectId: int): (r: map<int, Task>)
    ensures forall id :: id in r <==> id in tasks && tasks[id].project != projectId
    ensures forall id :: id in r ==> r[id] == tasks[id]
  {
    map id | id in tasks && tasks[id].project != projectId :: tasks[id]
  }

  /** After the cascade, the project has no tasks left. */
  lemma CascadeEmptiesProject(tasks: map<int, Task>, projectId: int)
    ensures TasksOf(Cascade(tasks, projectId), projectId) == {}
  {
  }

  /** Deleting a project together with its tasks keeps every foreign key intact. */
  lemma CascadeKeepsTasksValid(tasks: map<int, Task>, projects: map<int, Project>, users: map<int, User>,
                               nextId: int, projectId: int)
    requires TasksValid(tasks, projects, users, nextId)
    ensures TasksValid(Cascade(tasks, projectId), projects - {projectId}, users, nextId)
  {
  }

  /** The database: the `users`, `projects` and `tasks` tables and their serial counters. */
  class Store {
    var users: map<int, User>
    var projects: map<int, Project>
    var tasks: map<int, Task>
    var nextUserId: int
    var nextProjectId: int
    var nextTaskId: int

    ghost predicate Valid()
      reads this
    {
      && UsersValid(users, nextUserId)
      && ProjectsValid(projects, users, nextProjectId)
      && TasksValid(tasks, projects, users, nextTaskId)
    }

    /** An empty database whose serial columns start at 1. */
    constructor ()
      ensures Valid()
      ensures users == map[] && projects == map[] && tasks == map[]
      ensures nextUserId == 1 && nextProjectId == 1 && nextTaskId == 1
    {
      users, projects, tasks := map[], map[], map[];
      nextUserId, nextProjectId, nextTaskId := 1, 1, 1;
    }
  }
}
