/** Client walk-throughs: sequences of service calls whose outcomes follow from the
    services' contracts alone. */
module Scenarios {
  import opened Outcomes
  import opened UserModel
  import opened TaskModel
  import opened UserServices
  import opened TaskServices

  /** Create "alice01", soft-delete it twice, then create "alice01" again with another
      email: the second delete is refused, and the second create revives the same row with
      the new email. */
  method SoftDeleteThenRecreate(users: UserService, now: int)
    returns (first: Result<User>, secondDelete: Result<()>, second: Result<User>)
    requires users.Valid()
    requires !UsernameTaken(users.users, "alice01")
    requires !EmailTaken(users.users, "a@x.com") && !EmailTaken(users.users, "alice@y.com")
    modifies users
    ensures users.Valid()
    ensures first.Ok? && first.value.isActive == ACTIVE
    ensures secondDelete == Err(UserInactive)
    ensures second.Ok?
    ensures second.value.userId == first.value.userId
    ensures second.value.username == "alice01" && second.value.email == "alice@y.com"
    ensures second.value.isActive == ACTIVE
    ensures second.value.createdAt == first.value.createdAt
  {
    first := users.CreateUser(UserModel.Build(0, "alice01", "Alice A", "a@x.com", 0, 0), now);
    var id := first.value.userId;
    var byId := users.GetUserById(id);
    assert byId == first;
    var firstDelete := users.DeleteUserById(id, now + 1);
    assert firstDelete == Ok(());
    byId := users.GetUserById(id);
    assert byId == Err(NotFound("User", "id"));
    secondDelete := users.DeleteUserById(id, now + 2);
    assert users.users[id].username == "alice01";
    assert !EmailHeldElsewhere(users.users, id, "alice@y.com");
    second := users.CreateUser(UserModel.Build(0, "alice01", "Alice Again", "alice@y.com", 0, 0), now + 3);
  }

  /** Reviving by username takes the candidate's email without looking at other rows: when
      an active user already has that email, the storage layer's unique constraint refuses
      the write, and the table is left as it was. */
  method RevivalByUsernameMeetsEmailConstraint(users: UserService, now: int) returns (r: Result<User>)
    requires users.Valid() && users.users == map[]
    modifies users
    ensures r == Err(StorageConflict)
    ensures users.Valid()
  {
    var bob := users.CreateUser(UserModel.Build(0, "bob01", "Bob Bobson", "b@x.com", 0, 0), now);
    var carol := users.CreateUser(UserModel.Build(0, "carol", "Carol Carr", "c@x.com", 0, 0), now);
    var deleted := users.DeleteUserById(bob.value.userId, now);
    assert users.users[bob.value.userId].username == "bob01";
    assert users.users[carol.value.userId].email == "c@x.com";
    r := users.CreateUser(UserModel.Build(0, "bob01", "Bob Bobson", "c@x.com", 0, 0), now);
  }

  /** Create a task, then change only its status, then only its title: each update keeps
      the fields it was not given. */
  method PartialUpdates(tasks: TaskService, ownerId: int, now: int)
    returns (created: Result<Task>, statusOnly: Result<Task>, titleOnly: Result<Task>)
    requires tasks.Valid() && tasks.userService.IsActiveUser(ownerId)
    modifies tasks
    ensures tasks.Valid()
    ensures created.Ok? && created.value.status == Todo && created.value.ownerId == ownerId
    ensures statusOnly.Ok? && statusOnly.value.status == Done
    ensures statusOnly.value.title == created.value.title
    ensures statusOnly.value.description == created.value.description
    ensures statusOnly.value.ownerId == created.value.ownerId
    ensures titleOnly.Ok? && titleOnly.value.title == "Final report" && titleOnly.value.status == Done
    ensures titleOnly.value.ownerId == ownerId
  {
    created := tasks.CreateTask(CreateTaskRequest(ownerId, "Write report", None, None), now);
    var id := created.value.taskId;
    assert id in tasks.tasks && tasks.tasks[id] == created.value;
    statusOnly := tasks.UpdateTask(id, UpdateTaskRequest(None, None, Some(Done), None), now + 1);
    assert tasks.tasks[id] == statusOnly.value;
    titleOnly := tasks.UpdateTask(id, UpdateTaskRequest(Some("Final report"), None, None, None), now + 2);
  }

  /** Create a task and delete it: afterwards it is gone from its owner's listing. */
  method CreateThenDelete(tasks: TaskService, ownerId: int, now: int)
    returns (created: Result<Task>, listing: Result<set<Task>>)
    requires tasks.Valid() && tasks.userService.IsActiveUser(ownerId)
    modifies tasks
    ensures tasks.Valid()
    ensures created.Ok?
    ensures listing.Ok? && forall t | t in listing.value :: t.taskId != created.value.taskId
  {
    created := tasks.CreateTask(CreateTaskRequest(ownerId, "Write report", None, None), now);
    var deleted := tasks.DeleteTask(created.value.taskId);
    listing := tasks.GetTasksByUserId(ownerId);
  }

  /** Soft-deleting a user keeps its tasks and the foreign keys intact, but the user's task
      listing and new tasks for it are refused. */
  method DeactivatedOwner(tasks: TaskService, ownerId: int, now: int)
    returns (listing: Result<set<Task>>, created: Result<Task>)
    requires tasks.Valid() && tasks.userService.IsActiveUser(ownerId)
    modifies tasks, tasks.userService
    ensures tasks.Valid()
    ensures tasks.tasks == old(tasks.tasks)
    ensures listing == Err(NotFound("User", "id"))
    ensures created == Err(NotFound("User", "id"))
  {
    var deleted := tasks.userService.DeleteUserById(ownerId, now);
    listing := tasks.GetTasksByUserId(ownerId);
    created := tasks.CreateTask(CreateTaskRequest(ownerId, "Too late", None, None), now);
  }
}
