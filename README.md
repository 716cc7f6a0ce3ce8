# Task manager backend: ownership-scoped record store

This project models the core of a NestJS task-management backend. That core is three services over three database tables:

- `users`, `projects` and `tasks`, with their foreign keys, the unique e-mail, the column widths and the delete cascade from a project to its tasks;
- the request-body rules the validation pipe applies to the task, project and authentication DTOs;
- `TasksService`, `ProjectsService` and `AuthService`.

Each TypeORM repository becomes a `map` from id to row. The maps and their serial counters live in the class `Database.Store`. Operations that change tables are methods that modify the store. Every such method keeps the store's invariant `Valid()`:

- ids come from the serial counter;
- every row sits under its own id;
- every task's priority lies within 1..5;
- every project's owner and every task's project and assignee exist;
- e-mails are unique and every user row fits its columns.

Queries are functions over the table maps, so lemmas can relate them.

The main properties proved:

- **Ownership scoping.** A caller sees, changes or deletes only tasks of projects they own and only projects they created. A missing row and another user's row give the same NotFound.
- **Project listing.** `findAll` lists each owned project exactly once, newest first.
- **Validation.** The pipe accepts exactly the bodies its decorators describe. Encoding a DTO as a body and validating it gives the DTO back exactly when it obeys the rules.
- **Updates.** Each update changes only the fields the code assigns.
- **Cascade.** Deleting a project removes its tasks and keeps every foreign key intact.
- **Login.** The login response is independent of the stored password.
- **Registration.** The insert hook hashes the already-hashed password a second time. As a result, a freshly registered user's own password is rejected.

bcrypt, the JWT signer, the e-mail and date-string format checks, the conversion of a date string to a date, and the database clock are parameters of the operations.

Two behaviours of the code are worth stating outright:

- **Login errors.** `validateUser` answers "User not found" and "Invalid password" separately, so a caller can tell whether an e-mail is registered. `AuthService.ValidateUser` states both answers.
- **Registration then login.** `register` hashes the password, and the `@BeforeInsert` hook hashes that digest again, so the stored value is hash(hash(pw)). `AuthService.RegisteredPlaintextRejected` states the consequence: when the comparison behaves like bcrypt's, the plaintext is rejected and only the first digest is accepted.

## Model

| member | source | states |
|---|---|---|
| TaskEntity.StatusName | task/backend/src/entities/task.entity.ts:18-23 | every task status is stored as one of the four enum literals of the column |
| TaskEntity.StatusNameInjective | task/backend/src/entities/task.entity.ts:5 | distinct task statuses are stored as distinct literals |
| ProjectEntity.StatusName | task/backend/src/entities/project.entity.ts:18-23 | every project status is stored as one of the three enum literals of the column |
| ProjectEntity.StatusNameInjective | task/backend/src/entities/project.entity.ts:5 | distinct project statuses are stored as distinct literals |
| UserEntity.HashPassword | task/backend/src/entities/user.entity.ts:33-38 | the insert hook replaces a non-empty password by its hash, leaves an empty one as is, and changes no other column |
| UserEntity.HookHashesTwice | task/backend/src/entities/user.entity.ts:33-38 | a password that is already a (non-empty) digest is stored as the hash of that digest |
| Database.TasksOf | task/backend/src/entities/project.entity.ts:34-35 | a project's `tasks` relation holds exactly the stored tasks whose project is that project |
| Database.Cascade | task/backend/src/entities/task.entity.ts:37-38 | deleting a project deletes exactly its tasks and leaves every other task as it was |
| Database.CascadeEmptiesProject | task/backend/src/entities/task.entity.ts:37-38 | after the cascade the deleted project has no tasks |
| Database.CascadeKeepsTasksValid | task/backend/src/entities/task.entity.ts:34-38 | after deleting a project with its tasks, every remaining task's project and assignee still exist |
| Database.Store.constructor | task/backend/src/entities/user.entity.ts:8-9 | the tables start empty with every serial counter at 1, and the store invariant holds |
| TaskDto.EnumValue | task/backend/src/modules/tasks/dto/task.dto.ts:4-9 | every DTO status member has one of the four declared values |
| TaskDto.ParseEnum | task/backend/src/modules/tasks/dto/task.dto.ts:26 | `@IsEnum` accepts a string exactly when it is a declared value, and the member found has that value |
| TaskDto.Validate | task/backend/src/modules/tasks/dto/task.dto.ts:11-49 | a body passes exactly when every decorator holds; the DTO obeys the date and 1..5 priority rules and is the body minus undeclared properties |
| TaskDto.WhitelistRoundTrip | task/backend/src/modules/tasks/dto/task.dto.ts:11-49 | the DTO transformed from a valid body encodes back to the whitelisted body and obeys the typed rules |
| TaskDto.ToBodyProperties | task/backend/src/modules/tasks/dto/task.dto.ts:11-49 | the body sent for a DTO holds exactly the DTO's present properties, null ones as null |
| TaskDto.TransformToBody | task/backend/src/modules/tasks/dto/task.dto.ts:11-49 | transforming the body sent for a DTO gives the DTO back |
| TaskDto.ValidBodyToBody | task/backend/src/modules/tasks/dto/task.dto.ts:11-49 | the body sent for a DTO passes the decorators exactly when the DTO obeys the typed rules |
| TaskDto.ValidateToBody | task/backend/src/modules/tasks/dto/task.dto.ts:11-49 | validating the body sent for a DTO returns that DTO exactly when it obeys the rules, and fails otherwise |
| TaskDto.UpdateNeedsRequiredFields | task/backend/src/modules/tasks/dto/task.dto.ts:51 | the update DTO keeps every create rule, so a body without title, deadline or project id is rejected |
| ProjectDto.EnumValue | task/backend/src/modules/projects/dto/project.dto.ts:4-8 | every DTO status member has one of the three declared values |
| ProjectDto.ParseEnum | task/backend/src/modules/projects/dto/project.dto.ts:30 | `@IsEnum` accepts a string exactly when it is a declared value, and the member found has that value |
| ProjectDto.Validate | task/backend/src/modules/projects/dto/project.dto.ts:10-33 | a body passes exactly when every decorator holds; the DTO obeys the date rule and is the body minus undeclared properties |
| ProjectDto.WhitelistRoundTrip | task/backend/src/modules/projects/dto/project.dto.ts:10-33 | the DTO transformed from a valid body encodes back to the whitelisted body and obeys the typed rules |
| ProjectDto.ToBodyProperties | task/backend/src/modules/projects/dto/project.dto.ts:10-33 | the body sent for a DTO holds exactly the DTO's present properties |
| ProjectDto.ValidateToBody | task/backend/src/modules/projects/dto/project.dto.ts:10-33 | validating the body sent for a DTO returns that DTO exactly when it obeys the rules |
| ProjectDto.UpdateNeedsName | task/backend/src/modules/projects/dto/project.dto.ts:35 | the update DTO keeps the create rules, so a body without a name is rejected |
| AuthDto.ValidateLogin | task/backend/src/modules/auth/dto/auth.dto.ts:4-13 | a login body passes exactly when the e-mail format and the 3-character password minimum hold, and yields the whitelisted body |
| AuthDto.ValidateRegister | task/backend/src/modules/auth/dto/auth.dto.ts:15-29 | a registration body passes exactly when e-mail format, non-empty username and 3-character password hold, and yields the whitelisted body |
| AuthDto.ValidateLoginToBody | task/backend/src/modules/auth/dto/auth.dto.ts:4-13 | validating the body sent for a login DTO returns it exactly when it obeys the rules |
| AuthDto.ValidateRegisterToBody | task/backend/src/modules/auth/dto/auth.dto.ts:15-29 | validating the body sent for a registration DTO returns it exactly when it obeys the rules |
| Validation.OptionalField | task/backend/src/modules/tasks/dto/task.dto.ts:18 | an `@IsOptional` property that is absent stays undefined, a null one stays null, any other is converted |
| Validation.OptionalStringRoundTrip | task/backend/src/modules/tasks/dto/task.dto.ts:16-19 | a validated optional string property encodes back to what the client sent |
| Validation.OptionalIntRoundTrip | task/backend/src/modules/tasks/dto/task.dto.ts:30-35 | a validated optional integer property encodes back to what the client sent |
| Tables.SortDescProperties | task/backend/src/modules/projects/projects.service.ts:39 | ordering by creation time descending yields a non-increasing sequence and keeps distinct rows distinct |
| TasksService.ToTaskStatus | task/backend/src/modules/tasks/tasks.service.ts:39-44 | the status map sends each DTO member to the stored status of the same spelling |
| TasksService.FindAll | task/backend/src/modules/tasks/tasks.service.ts:60-83 | lists exactly the tasks of the caller's projects that pass the status, priority and (both-bound) deadline filters |
| TasksService.FindOne | task/backend/src/modules/tasks/tasks.service.ts:85-96 | returns the stored task exactly when the caller owns its project, else NotFound("Task not found") |
| TasksService.FindAllAgreesWithFindOne | task/backend/src/modules/tasks/tasks.service.ts:60-96 | without filters a task is listed exactly when `findOne` returns it to the same caller |
| TasksService.FiltersNarrow | task/backend/src/modules/tasks/tasks.service.ts:67-80 | every filter only narrows the unfiltered list |
| TasksService.OneDeadlineBoundIgnored | task/backend/src/modules/tasks/tasks.service.ts:75 | a single deadline bound has no effect |
| TasksService.DeadlineRangeInclusive | task/backend/src/modules/tasks/tasks.service.ts:76 | with both bounds given, a task of the caller's is listed exactly when its deadline lies between them, ends included |
| TasksService.FindOneHidesOtherOwners | task/backend/src/modules/tasks/tasks.service.ts:91-93 | another user's task is indistinguishable from a missing one |
| TasksService.Create | task/backend/src/modules/tasks/tasks.service.ts:20-58 | NotFound("Project not found") and no change unless the caller owns the project; else one new task under the next id with the defaults (pending, priority 1), the assignee only if that user exists, and the store invariant kept, including the 1..5 priority range that a validated DTO (`TaskDto.Validate`) guarantees |
| TasksService.Update | task/backend/src/modules/tasks/tasks.service.ts:98-125 | NotFound and no change unless owned; a null priority fails the NOT NULL column with no change; else exactly the assigned fields change, never the project, id or creation time, and the stored priority stays within 1..5 |
| TasksService.Remove | task/backend/src/modules/tasks/tasks.service.ts:127-130 | NotFound and no change unless owned; else exactly that task is deleted |
| ProjectsService.ToProjectStatus | task/backend/src/modules/projects/projects.service.ts:17-21 | the status map sends each DTO member to the stored status of the same spelling |
| ProjectsService.FindAll | task/backend/src/modules/projects/projects.service.ts:35-41 | lists every project the caller created, each once, ordered by creation time descending, each with exactly its tasks |
| ProjectsService.FindOne | task/backend/src/modules/projects/projects.service.ts:43-52 | returns the project with its tasks exactly when the caller created it, else NotFound("Project not found") |
| ProjectsService.FindOneHidesOtherOwners | task/backend/src/modules/projects/projects.service.ts:44-50 | another user's project is indistinguishable from a missing one |
| ProjectsService.FindAllAgreesWithFindOne | task/backend/src/modules/projects/projects.service.ts:35-52 | every listed project is what `findOne` returns to the same caller |
| ProjectsService.Create | task/backend/src/modules/projects/projects.service.ts:15-33 | a new project under the next id owned by the caller, status active unless given, optional fields null unless given; an owner with no user row fails the foreign key with no change |
| ProjectsService.Update | task/backend/src/modules/projects/projects.service.ts:54-72 | NotFound and no change unless owned; else status only when given, name replaced, description and deadline only when not undefined; id, owner, creation time and tasks unchanged |
| ProjectsService.Remove | task/backend/src/modules/projects/projects.service.ts:74-77 | NotFound and no change unless owned; else the project and exactly its tasks are deleted, the invariant kept, and no caller finds those tasks any more |
| AuthService.WithoutPassword | task/backend/src/modules/auth/auth.service.ts:40-42 | stripping the password keeps every other property |
| AuthService.FindByEmail | task/backend/src/modules/auth/auth.service.ts:21-23 | the lookup returns a row with that e-mail, and nothing exactly when no row has it |
| AuthService.FindByEmailUnique | task/backend/src/entities/user.entity.ts:11-12 | under the unique e-mail constraint the lookup returns the one row holding the e-mail |
| AuthService.ValidateUser | task/backend/src/modules/auth/auth.service.ts:16-48 | Unauthorized("User not found") exactly when no row has the e-mail; else the row without password if `compare` accepts, else Unauthorized("Invalid password") |
| AuthService.Login | task/backend/src/modules/auth/auth.service.ts:50-78 | signs e-mail, id as subject, username and admin flag, and answers with the token and those properties; a signing failure gives Unauthorized("Login failed") |
| AuthService.LoginHidesPassword | task/backend/src/modules/auth/auth.service.ts:65-73 | the login response does not depend on the password |
| AuthService.ValidatedLoginIsForThatUser | task/backend/src/modules/auth/auth.controller.ts:21-24 | validate-then-login issues a token only for the row with the submitted e-mail whose password was accepted, with that row's id |
| AuthService.NewUser | task/backend/src/modules/auth/auth.service.ts:95-106 | the inserted row has the given e-mail and username, is not admin, and stores the hook's hash of the service's digest |
| AuthService.Register | task/backend/src/modules/auth/auth.service.ts:80-119 | BadRequest("Email already exists") and no change for a taken e-mail; else the row is inserted under the next id (or rejected for a column too long) and the response is its login |
| AuthService.InsertKeepsUsersValid | task/backend/src/entities/user.entity.ts:11-18 | inserting a fresh id and e-mail within the column widths keeps the users table valid |
| AuthService.ValidateAfterInsert | task/backend/src/modules/auth/auth.service.ts:32-42 | right after an insert, validating its e-mail compares the password against exactly the stored digest |
| AuthService.RegisteredPlaintextRejected | task/backend/src/modules/auth/auth.service.ts:95 | with a bcrypt-like `compare`, a just-registered user's own password is rejected with "Invalid password" while the first digest is accepted |

## Left out

- Logging (`console.log`/`console.error`), HTTP controllers, guards, the Passport strategy, module wiring, `main.ts` and the whole frontend are not part of this model; the controller's validate-then-login sequence appears only in `AuthService.ValidatedLoginIsForThatUser`.
- bcrypt, JWT signing, `IsEmail`, `IsDateString` and date parsing are foreign code: they are parameters (`hash`, `hookHash`, `compare`, `sign`, `isEmail`, `isDateString`, `toDay`); the token's expiry and secret are inside `sign`.
- The database clock for `createdAt` is a parameter `now`; concurrent requests (two registrations racing past the e-mail check) are not modelled, so unique e-mails are kept only through the service's lookup before the insert.
- Dates are whole day numbers; time zones and the `Date` object's time part are not modelled.
- The query-string filters of `GET /tasks` arrive already converted (a status string, integers for priority and dates); a status filter that is not an enum literal matches nothing here, whereas the database rejects the query with an error.
- `assignedUser` and `createdBy` relations are held as ids, not loaded user objects. The task queries load `assignedUser` and `project.createdBy`, and the project queries load `tasks.assignedUser`; since the password column is selected by default, those responses carry the embedded user rows with their stored password digests. The model does not capture that leak: only the authentication responses are modelled as password-free.
- The database engine is taken to be PostgreSQL: the QueryFailed messages are its wording, and its `integer` type bounds the serial ids. The model's ids are unbounded, so it does not capture that a `projectId` or `assignedUserId` of 2147483648 or more, which `@IsInt()` accepts, makes the lookup fail with an out-of-range database error (HTTP 500) instead of NotFound("Project not found") or a null assignee.
- TasksService.Update: for a body with `status: null` the stored row keeps its status, as modelled, but the object the source returns has no status at all (the status map yields undefined and the save does not reload it); the model returns the row with its old status.
- A failed insert does not advance the serial counter in this model, whereas a database sequence would consume a value.
- `isAdmin || false` is the stored boolean itself, so it is modelled as the flag.
- AuthService.Register: the claim that the plaintext is never stored is only as strong as the `hash` parameter, which the model treats as an arbitrary function.
- TasksService.FindAll: the row order of the query builder is unspecified, so the result is a set.
