/**
 * ProjectsService: project creation, listing, lookup, partial update and
 * deletion, all scoped to the projects the caller owns.
 */
module ProjectsService {
  import opened Common
  import opened Validation
  import opened ProjectEntity
  import TaskEntity
  import ProjectDto
  import Database
  import Tables
  import TasksService

  /** The same NotFound("Project not found") the task service raises for a project the caller does not own. */
  const ProjectNotFound: Exception := TasksService.ProjectNotFound
  /** What the database answers when the owner named by `createdBy` has no row. */
  const OwnerMissing: Exception := QueryFailed("insert or update on table \"projects\" violates foreign key constraint")

  /** The service's status map: each DTO member to the storage status of the same spelling. */
  function ToProjectStatus(e: ProjectDto.ProjectStatusEnum): (s: ProjectStatus)
    ensures StatusName(s) == ProjectDto.EnumValue(e)
  {
    match e
    case Active => ProjectStatus.Active
    case Completed => ProjectStatus.Completed
    case OnHold => ProjectStatus.OnHold
  }

  /** A project as the service returns it: the row with its `tasks` relation loaded. */
  datatype LoadedProject = LoadedProject(project: Project, tasks: set<TaskEntity.Task>)

  function Load(p: Project, tasks: map<int, TaskEntity.Task>): LoadedProject
  {
    LoadedProject(p, Database.TasksOf(tasks, p.id))
  }

  function ProjectsOf(r: seq<LoadedProject>): (ps: seq<Project>)
    ensures |ps| == |r| && forall i :: 0 <= i < |r| ==> ps[i] == r[i].project
  {
    seq(|r|, i requires 0 <= i < |r| => r[i].project)
  }

  function CreatedAt(p: Project): int { p.createdAt }

  /** The caller owns the project row. */
  predicate OwnedBy(p: Project, userId: int) { p.createdBy == userId }

  /**
   * `findAll`: every project the caller owns, each once, newest first
   * (non-increasing `createdAt`), each with its tasks.
   */
  function FindAll(projects: map<int, Project>, tasks: map<int, TaskEntity.Task>, nextId: nat, userId: int)
    : (r: seq<LoadedProject>)
    requires forall id :: id in projects ==> 0 <= id < nextId && projects[id].id == id
    ensures forall p :: p in ProjectsOf(r) <==> p in projects.Values && p.createdBy == userId
    ensures Tables.Distinct(ProjectsOf(r))
    ensures Tables.SortedDesc(ProjectsOf(r), CreatedAt)
    ensures forall i :: 0 <= i < |r| ==> r[i].tasks == Database.TasksOf(tasks, r[i].project.id)
  {
    var ids := Tables.SelectKeys(projects, nextId, p => OwnedBy(p, userId));
    var owned := seq(|ids|, i requires 0 <= i < |ids| => projects[ids[i]]);
    OwnedRows(projects, nextId, userId, ids, owned);
    var sorted := Tables.SortDesc(owned, CreatedAt);
    Tables.SortDescProperties(owned, CreatedAt);
    var r := seq(|sorted|, i requires 0 <= i < |sorted| => Load(sorted[i], tasks));
    assert ProjectsOf(r) == sorted;
    SameElements(sorted, owned);
    r
  }

  /** The rows of the selected keys are the caller's projects, each once. */
  lemma OwnedRows(projects: map<int, Project>, nextId: nat, userId: int, ids: seq<int>, owned: seq<Project>)
    requires forall id :: id in projects ==> 0 <= id < nextId && projects[id].id == id
    requires ids == Tables.SelectKeys(projects, nextId, p => OwnedBy(p, userId))
    requires |owned| == |ids| && forall i :: 0 <= i < |ids| ==> ids[i] in projects && owned[i] == projects[ids[i]]
    ensures forall p :: p in owned <==> p in projects.Values && p.createdBy == userId
    ensures Tables.Distinct(owned)
  {
    forall p | p in projects.Values && p.createdBy == userId
      ensures p in owned
    {
      var id :| id in projects && projects[id] == p;
      assert id in ids;
      var i :| 0 <= i < |ids| && ids[i] == id;
      assert owned[i] == p;
    }
    forall i, j | 0 <= i < j < |owned|
      ensures owned[i] != owned[j]
    {
      assert owned[i].id == ids[i] && owned[j].id == ids[j];
    }
  }

  /** Sequences with the same multiset have the same elements. */
  lemma SameElements(a: seq<Project>, b: seq<Project>)
    requires multiset(a) == multiset(b)
    ensures forall p :: p in a <==> p in b
  {
    forall p
      ensures p in a <==> p in b
    {
      assert p in a <==> p in multiset(a);
      assert p in b <==> p in multiset(b);
    }
  }

  /**
   * `findOne`: the project with its tasks when the caller owns it; a
   * missing id and another user's project give the same NotFound.
   */
  function FindOne(projects: map<int, Project>, tasks: map<int, TaskEntity.Task>, id: int, userId: int)
    : (r: Result<LoadedProject>)
    ensures r.Success? <==> id in projects && OwnedBy(projects[id], userId)
    ensures r.Success? ==> r.value.project == projects[id] && r.value.tasks == Database.TasksOf(tasks, id)
    ensures r.Failure? ==> r.error == ProjectNotFound
  {
    if id in projects && OwnedBy(projects[id], userId) then
      Success(LoadedProject(projects[id], Database.TasksOf(tasks, id)))
    else
      Failure(ProjectNotFound)
  }

  /** `findOne` does not reveal other users' projects: removing one the caller does not own changes nothing the caller sees. */
  lemma FindOneHidesOtherOwners(projects: map<int, Project>, tasks: map<int, TaskEntity.Task>, id: int, userId: int)
    requires id in projects && !OwnedBy(projects[id], userId)
    ensures FindOne(projects, tasks, id, userId) == FindOne(projects - {id}, tasks, id, userId)
  {
  }

  /** A project `findAll` lists is one `findOne` returns to the same caller, with the same tasks. */
  lemma FindAllAgreesWithFindOne(projects: map<int, Project>, tasks: map<int, TaskEntity.Task>, nextId: nat, userId: int, i: nat)
    requires forall id :: id in projects ==> 0 <= id < nextId && projects[id].id == id
    requires i < |FindAll(projects, tasks, nextId, userId)|
    ensures FindOne(projects, tasks, FindAll(projects, tasks, nextId, userId)[i].project.id, userId)
              == Success(FindAll(projects, tasks, nextId, userId)[i])
  {
    var r := FindAll(projects, tasks, nextId, userId);
    assert r[i].project == ProjectsOf(r)[i];
    assert r[i].project in ProjectsOf(r);
  }

  /**
   * `create`: a new project owned by the caller, with status 'active'
   * unless a status is given, description and deadline null unless given;
   * the foreign key on `createdBy` rejects an owner with no user row.
   */
  method Create(db: Database.Store, dto: ProjectDto.CreateProjectDto, userId: int, now: int, toDay: string -> int)
    returns (r: Result<Project>)
    requires db.Valid()
    modifies db
    ensures db.Valid()
    ensures db.users == old(db.users) && db.tasks == old(db.tasks)
    ensures db.nextUserId == old(db.nextUserId) && db.nextTaskId == old(db.nextTaskId)
    ensures r.Failure? <==> userId !in old(db.users)
    ensures r.Failure? ==> r.error == OwnerMissing && db.projects == old(db.projects) && db.nextProjectId == old(db.nextProjectId)
    ensures r.Success? ==>
      && r.value.id == old(db.nextProjectId) && r.value.id !in old(db.projects)
      && db.projects == old(db.projects)[r.value.id := r.value] && db.nextProjectId == old(db.nextProjectId) + 1
      && r.value.createdBy == userId && r.value.name == dto.name && r.value.createdAt == now
      && r.value.status == (if dto.status.Present? then ToProjectStatus(dto.status.value) else DefaultStatus)
      && r.value.description == Nullable(dto.description)
      && r.value.deadline == (if dto.deadline.Present? then Some(toDay(dto.deadline.value)) else None)
  {
    if userId !in db.users {
      return Failure(OwnerMissing);
    }
    var status := if dto.status.Present? then ToProjectStatus(dto.status.value) else DefaultStatus;
    var deadline := if dto.deadline.Present? then Some(toDay(dto.deadline.value)) else None;
    var project := Project(db.nextProjectId, dto.name, Nullable(dto.description), status, now, deadline, userId);
    ghost var before := db.projects;
    db.projects := db.projects[project.id := project];
    db.nextProjectId := db.nextProjectId + 1;
    forall k | k in db.projects
      ensures 1 <= k < db.nextProjectId && db.projects[k].id == k && db.projects[k].createdBy in db.users
    {
      if k != project.id {
        assert k in before;
      }
    }
    r := Success(project);
  }

  /**
   * `update`: NotFound("Project not found") and no change unless the
   * caller owns the project; otherwise status changes only when a status is
   * given, the name is replaced, description and deadline change only when
   * not undefined (null clears them); id, owner, creation time and the
   * tasks are untouched.
   */
  method Update(db: Database.Store, id: int, dto: ProjectDto.UpdateProjectDto, userId: int, toDay: string -> int)
    returns (r: Result<LoadedProject>)
    requires db.Valid()
    modifies db
    ensures db.Valid()
    ensures db.users == old(db.users) && db.tasks == old(db.tasks)
    ensures db.nextUserId == old(db.nextUserId) && db.nextProjectId == old(db.nextProjectId) && db.nextTaskId == old(db.nextTaskId)
    ensures r.Failure? <==> FindOne(old(db.projects), old(db.tasks), id, userId).Failure?
    ensures r.Failure? ==> r.error == ProjectNotFound && db.projects == old(db.projects)
    ensures r.Success? ==>
      var p := old(db.projects)[id];
      && db.projects == old(db.projects)[id := r.value.project]
      && r.value.tasks == Database.TasksOf(db.tasks, id)
      && r.value.project.id == p.id && r.value.project.createdBy == p.createdBy && r.value.project.createdAt == p.createdAt
      && r.value.project.status == (if dto.status.Present? then ToProjectStatus(dto.status.value) else p.status)
      && r.value.project.name == dto.name
      && r.value.project.description == Patch(p.description, dto.description)
      && r.value.project.deadline == Patch(p.deadline, MapField(dto.deadline, toDay))
  {
    var found := FindOne(db.projects, db.tasks, id, userId);
    if found.Failure? {
      return Failure(found.error);
    }
    var project := found.value.project;
    // Only a truthy status is applied: a null status is skipped.
    if dto.status.Present? {
      project := project.(status := ToProjectStatus(dto.status.value));
    }
    project := project.(name := dto.name);
    project := project.(description := Patch(project.description, dto.description));
    project := project.(deadline := Patch(project.deadline, MapField(dto.deadline, toDay)));
    db.projects := db.projects[id := project];
    r := Success(LoadedProject(project, found.value.tasks));
  }

  /**
   * `remove`: NotFound("Project not found") and no change unless the
   * caller owns the project; otherwise the project is deleted and, through
   * the cascade on the task's project relation, every task of it; other
   * projects and tasks are unchanged. Afterwards no caller finds any of the
   * deleted tasks.
   */
  method Remove(db: Database.Store, id: int, userId: int) returns (r: Result<()>)
    requires db.Valid()
    modifies db
    ensures db.Valid()
    ensures db.users == old(db.users)
    ensures db.nextUserId == old(db.nextUserId) && db.nextProjectId == old(db.nextProjectId) && db.nextTaskId == old(db.nextTaskId)
    ensures r.Failure? <==> FindOne(old(db.projects), old(db.tasks), id, userId).Failure?
    ensures r.Failure? ==> r.error == ProjectNotFound && db.projects == old(db.projects) && db.tasks == old(db.tasks)
    ensures r.Success? ==> db.projects == old(db.projects) - {id} && db.tasks == Database.Cascade(old(db.tasks), id)
    ensures r.Success? ==> forall tid, u :: tid in old(db.tasks) && old(db.tasks)[tid].project == id ==>
              TasksService.FindOne(db.tasks, db.projects, tid, u) == Failure(TasksService.TaskNotFound)
  {
    var found := FindOne(db.projects, db.tasks, id, userId);
    if found.Failure? {
      return Failure(found.error);
    }
    Database.CascadeKeepsTasksValid(db.tasks, db.projects, db.users, db.nextTaskId, id);
    db.projects := db.projects - {id};
    db.tasks := Database.Cascade(db.tasks, id);
    r := Success(());
  }
}
