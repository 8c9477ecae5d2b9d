# Task-management backend: user lifecycle and task ownership

This project models the business core of a task-management backend. It covers two services.

- The user service handles creating users, including revival of soft-deleted rows. It also covers active-only lookups, updates with duplicate checks, and soft delete.
- The task service handles tasks, each owned by a user. It checks that owner against the user table on creation, listing and reassignment.

The model also covers the field constraints of the two entities, the email-shape pattern and the create/update timestamp hooks.

Layout, one module per source component:

- `outcomes.dfy` (`Outcomes`): `Option`, the service exceptions as `Error`, and `Result`.
- `constraints.dfy` (`Constraints`): `@NotBlank` as "not every character is at most U+0020", which is what `String.trim` strips.
- `email.dfy` (`Email`): the `@ValidEmail` pattern. `IsValidEmail` decides it by scanning for the first '@' and the last '.'. `MatchesPattern` is the pattern's language, stated by split points. The two are proved equal.
- `user_model.dfy` (`UserModel`): the `User` row and its field constraints. It also holds the builder default `isActive = "Y"` and the `onCreate`/`onUpdate` hooks.
- `task_model.dfy` (`TaskModel`): the `Task` row and its field constraints. It also holds the status default `Todo` and the hooks.
- `user_service.dfy` (`UserServices`): class `UserService`, holding the `users` table as `map<int, User>` and the identity counter.
  - The repository's finders are lookups in that map.
  - `save` is a write that the storage layer checks against the unique constraints on `username` and `email`. These constraints span all rows, active or not.
  - `Valid()` is the table invariant: rows keyed by their own id, flag "Y" or "N", and both unique constraints.
- `task_service.dfy` (`TaskServices`): class `TaskService`, holding the `tasks` table and a reference to the `UserService`.
  - Its `Valid()` includes the non-null foreign key: every task's owner is a row of the users table.
- `scenarios.dfy` (`Scenarios`): client walk-throughs that follow from the contracts alone.

Every service method is one transaction. When it raises an error, its contract states that the tables are unchanged. Entities are stored by value: a setter followed by `save` becomes an update of the map entry. Clock readings are an explicit `now: int` parameter. The pre-update hook runs only when a column actually changed, which is how the persistence layer's dirty check behaves.

Behaviour worth knowing, modelled as the code is written:

- `createUser` revives a row matched by username and copies the candidate's email onto it. It does not first check whether another row already has that email. When one does, the write breaks the storage unique constraint on `email`. The model returns `StorageConflict` with the table unchanged. No exception handler in the modelled code maps this storage exception to `AlreadyExists`, so the model keeps `StorageConflict` as a distinct error. `Scenarios.RevivalByUsernameMeetsEmailConstraint` exhibits this. Revival by email cannot break a constraint: it takes the candidate's username only when no row has it.
- `createTask` has a null check after `getUserById`. It can never fire, because that lookup throws `NotFound` itself. The model's outcome is the same `NotFound("User", "id")`.
- `updateTask` treats a null title as "leave unchanged". However, request validation puts `@NotBlank` on the update title (`ValidUpdateRequest`), so through the HTTP layer the title is always present. A description can never be cleared by an update, because null means "keep".
- The title message mentions 200 characters, but the constraint is `max = 100`. The model follows the constraint.

## Model

| member | source | states |
|---|---|---|
| `Email.IndexOf` | src/main/java/com/example/tasks/validation/ValidEmail.java:8 | the scan finds the first '@' with none before it, or reports that the string has none |
| `Email.LastIndexOf` | src/main/java/com/example/tasks/validation/ValidEmail.java:8 | the scan finds the last '.' with none after it, or reports that the string has none |
| `Email.ValidEmailIffPattern` | src/main/java/com/example/tasks/validation/ValidEmail.java:8 | the scanning predicate accepts exactly the strings that the anchored pattern matches as a whole: a non-empty local part over `[a-zA-Z0-9._%+-]`, '@', a non-empty domain over `[a-zA-Z0-9.-]`, '.', and 2 to 6 ASCII letters |
| `Email.SplitIsValid` | src/main/java/com/example/tasks/validation/ValidEmail.java:8 | every split the pattern allows is accepted by the scan |
| `Email.ValidHasSplit` | src/main/java/com/example/tasks/validation/ValidEmail.java:8 | every accepted string has a split the pattern allows, with local, domain and tld over their character sets |
| `Email.ValidEmailHasOneAt` | src/main/java/com/example/tasks/validation/ValidEmail.java:8 | a matching address contains exactly one '@', because no character set of the pattern contains it |
| `Email.ValidEmailIsLongAndNotBlank` | src/main/java/com/example/tasks/validation/ValidEmail.java:8 | a matching address has at least 6 characters and is not blank |
| `Email.ValidEmailEnding` | src/main/java/com/example/tasks/validation/ValidEmail.java:8 | a matching address has an '@' after a non-empty prefix, then a non-empty run of domain characters, then a '.' followed by 2 to 6 ASCII letters that end the string |
| `UserModel.ValidUsernameIff` | src/main/java/com/example/tasks/model/User.java:39-43 | a username is valid exactly when it has 5 to 50 characters, all from `[a-zA-Z0-9._-]`; the non-blank rule follows from the pattern |
| `UserModel.ValidEmailAddressIff` | src/main/java/com/example/tasks/model/User.java:50-53 | an email field is valid exactly when it matches the email pattern and has at most 100 characters; non-blank and the minimum of 5 follow from the pattern |
| `UserModel.Build` | src/main/java/com/example/tasks/model/User.java:55-57 | a freshly built user has `isActive = "Y"` and the given fields |
| `UserModel.OnCreate` | src/main/java/com/example/tasks/model/User.java:70-75 | on insert, `createdAt` and `updatedAt` take the same clock reading and nothing else changes |
| `UserModel.OnUpdate` | src/main/java/com/example/tasks/model/User.java:77-80 | on update only `updatedAt` changes, to the clock reading |
| `UserModel.CreatedAtSurvivesUpdates` | src/main/java/com/example/tasks/model/User.java:59-80 | after an insert and any series of updates, `createdAt` is still the insert time and `updatedAt` is the last update's time; this composes the two hooks' frame contracts, and the service contracts state the same fact per call |
| `UserServices.AtMostOneRowPerKey` | src/main/java/com/example/tasks/model/User.java:28-32 | under the unique constraints on username and email, each value picks out at most one row, so the finders have at most one answer |
| `UserServices.UserService.FindByUsername` | src/main/java/com/example/tasks/repository/UserRepository.java:12 | finds a row, active or not, exactly when some row has the username, and returns that stored row |
| `UserServices.UserService.FindByEmail` | src/main/java/com/example/tasks/repository/UserRepository.java:13 | finds a row, active or not, exactly when some row has the email, and returns that stored row |
| `UserServices.UserService.Insert` | src/main/java/com/example/tasks/service/UserService.java:63-64 | saving a new row either fails with `StorageConflict` (table unchanged) when its username or email is on any row, or adds exactly one row under the next id, stamped by the create hook; the table invariant is kept |
| `UserServices.UserService.Save` | src/main/java/com/example/tasks/model/User.java:28-32 | saving a stored row fails with `StorageConflict` (table unchanged) when another row has its username or email; otherwise only that row changes, stamped only if a column changed; the table invariant is kept |
| `UserServices.UserService.CreateUser` | src/main/java/com/example/tasks/service/UserService.java:23-67 | a username match decides the outcome alone. If inactive, the same id is revived with email and full name from the candidate and the username kept, or fails with `StorageConflict` if another row has that email. If active, `AlreadyExists("User", "username")` with the table unchanged. With no username match, an email match revives that row with the candidate's username and full name and the email kept, or if active gives `AlreadyExists("User", "email")`. Otherwise exactly one new active row is added, with equal timestamps. The table invariant and well-formed rows are kept, and no row disappears |
| `UserServices.UserService.GetAllUsers` | src/main/java/com/example/tasks/service/UserService.java:70-80 | with `includeInactive` the result is every row; without it, exactly the rows whose flag is "Y" |
| `UserServices.UserService.GetUserById` | src/main/java/com/example/tasks/service/UserService.java:83-92 | succeeds exactly when the id is on an active row and returns that row; otherwise `NotFound("User", "id")` |
| `UserServices.UserService.GetUserByUsername` | src/main/java/com/example/tasks/service/UserService.java:95-104 | succeeds exactly when an active row has the username and returns such an active row; otherwise `NotFound("User", "username")` |
| `UserServices.UserService.GetUserByEmail` | src/main/java/com/example/tasks/service/UserService.java:107-116 | succeeds exactly when an active row has the email and returns such an active row; otherwise `NotFound("User", "email")` |
| `UserServices.UserService.UpdateUserById` | src/main/java/com/example/tasks/service/UserService.java:119-145 | a missing id gives `NotFound`. A username or email that differs from the current one and is on any row gives `AlreadyExists` for that field, username checked first, with the table unchanged. Otherwise only that row changes: username, email and full name are overwritten, while the flag and `createdAt` are kept, and `updatedAt` is stamped only if a field changed |
| `UserServices.UserService.DeleteUserById` | src/main/java/com/example/tasks/service/UserService.java:148-166 | a missing id gives `NotFound("User", "id")`, an inactive row gives `UserInactive`, both with the table unchanged; otherwise only that row's flag becomes "N" (and its `updatedAt` is stamped) |
| `UserServices.UserService.ExistsById` | src/main/java/com/example/tasks/service/UserService.java:168-170 | true exactly when the id is on an active row |
| `TaskModel.Build` | src/main/java/com/example/tasks/model/Task.java:33-37 | a task built without a status has status `Todo` |
| `TaskModel.OnCreate` | src/main/java/com/example/tasks/model/Task.java:51-60 | on insert a missing status becomes `Todo`, a given one is kept, and `createdAt` and `updatedAt` take the same clock reading |
| `TaskModel.OnUpdate` | src/main/java/com/example/tasks/model/Task.java:62-65 | on update only `updatedAt` changes |
| `TaskServices.TaskService.CreateTask` | src/main/java/com/example/tasks/service/TaskService.java:25-44 | an absent or inactive owner gives `NotFound("User", "id")` and no task is stored. Otherwise exactly one task is added under the next id, with the request's title and description, the request's status or else `Todo`, the owner's id, and equal timestamps. The foreign-key invariant is kept |
| `TaskServices.TaskService.GetTasksByUserId` | src/main/java/com/example/tasks/service/TaskService.java:47-57 | fails with `NotFound("User", "id")` exactly when the user is not active; otherwise returns exactly the stored tasks whose owner id is that user |
| `TaskServices.TaskService.GetAllTasks` | src/main/java/com/example/tasks/service/TaskService.java:60-63 | returns exactly the stored tasks |
| `TaskServices.TaskService.UpdateTask` | src/main/java/com/example/tasks/service/TaskService.java:66-92 | a missing task gives `NotFound("Task", "id")`. A given user id that is not an active user gives `NotFound("User", "id")` and abandons the whole update. Both leave the table unchanged. Otherwise only that task changes: its owner becomes the given user, and title, description and status are overwritten only where the request has a value. `createdAt` is kept, and `updatedAt` is stamped only if something changed |
| `TaskServices.TaskService.DeleteTask` | src/main/java/com/example/tasks/service/TaskService.java:95-105 | a missing task gives `NotFound("Task", "id")` with the table unchanged; otherwise exactly that row is removed and every other row is kept |
| `Scenarios.SoftDeleteThenRecreate` | src/main/java/com/example/tasks/service/UserService.java:27-37 | create, then soft delete (the user is no longer visible by id), then a second delete gives `UserInactive`; creating the same username with a new email revives the same id, active, with the new email and the original `createdAt` |
| `Scenarios.RevivalByUsernameMeetsEmailConstraint` | src/main/java/com/example/tasks/service/UserService.java:30-35 | reviving by username with an email held by another active row is refused by the storage constraint |
| `Scenarios.PartialUpdates` | src/main/java/com/example/tasks/service/TaskService.java:79-91 | a status-only update keeps title, description and owner; a later title-only update keeps the new status |
| `Scenarios.CreateThenDelete` | src/main/java/com/example/tasks/service/TaskService.java:95-105 | after deleting a task it is absent from its owner's listing |
| `Scenarios.DeactivatedOwner` | src/main/java/com/example/tasks/model/Task.java:39-43 | soft-deleting an owner keeps every task and the foreign-key invariant, but that owner's listing and new tasks for that owner give `NotFound` |

## Left out

- HTTP controllers, status-code mapping, the logging filter, the external directory proxy and `.env` loading: these are plumbing around the core.
- Pagination and order: task listings (`TaskServices.TaskService.GetTasksByUserId`, `TaskServices.TaskService.GetAllTasks`) and the user listing (`UserServices.UserService.GetAllUsers`) are sets, where the code returns lists. The model states which rows are returned, not their order, offset or limit.
- Transactions are modelled as atomic calls. Isolation, concurrent creates racing on the unique constraints, and lazy loading are not modelled.
- The cascade from a user to its tasks is not modelled, because no exposed operation hard-deletes a user.
- Exception messages and logging: errors carry only the resource and field names.
- The Bean Validation wiring. The field constraints are predicates (`UserModel.ValidFields`, `TaskModel.ValidFields`, `TaskServices.ValidCreateRequest`, `TaskServices.ValidUpdateRequest`). The service methods do not require them; they only ensure that valid inputs keep every row well formed.
- The `@Email` annotation on the user's email: its checker is a framework algorithm that is not part of this model. Only `@ValidEmail`, `@NotBlank` and `@Size` are modelled.
- Request-body fields other than username, email and full name: a client-supplied id, flag or timestamps are ignored. In particular, saving a new user whose body carries an id is not modelled; the model always inserts under the next identity value.
- Timestamps are abstract clock readings passed in by the caller. `LocalDateTime.now()` is not modelled.
- Entity object identity: a task stores its owner's id, not a reference to the owner object, and the model has no aliasing between loaded entities.
- Matching of usernames and emails is exact, case-sensitive string equality. This applies to the finders, the unique constraints and the collision checks in `UserServices.UserService.UpdateUserById`. The real comparison depends on the database collation, which no file of the program fixes. Under a case-insensitive collation, `createUser` with "Alice01" would revive or refuse an existing "alice01" row, where the model inserts a new row. Likewise, renaming a user to a case-only variant of their own name passes the Java `equals` check, but the database collision check would refuse it. Collation is not modelled.
- String lengths count characters. Java counts UTF-16 code units, which differs only outside the Basic Multilingual Plane.
- The status enumeration is given as `Todo | InProgress | Done`; only `Todo` is named by the modelled code, and no proof depends on the other members.
