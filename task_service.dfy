/** The task service over the `tasks` table. Each task refers to its owner by id; the
    owner is resolved through the user service, which sees only active users. Every method
    is one transaction: when it fails, the table is as it was before. */
module TaskServices {
  import opened Outcomes
  import opened TaskModel
  import opened UserServices

  /** The body of a create request. */
  datatype CreateTaskRequest = CreateTaskRequest(userId: int, title: string, description: Option<string>, status: Option<TaskStatus>)

  /** The body of an update request: a `None` field means "leave unchanged". */
  datatype UpdateTaskRequest = UpdateTaskRequest(
    title: Option<string>,
    description: Option<string>,
    status: Option<TaskStatus>,
    userId: Option<int>)

  /** What request validation admits for a create: `@NotBlank` and `@Size(max = 100)` on the
      title, `@Size(max = 2000)` on the description. */
  predicate ValidCreateRequest(req: CreateTaskRequest) {
    ValidTitle(req.title) && ValidDescription(req.description)
  }

  /** What request validation admits for an update. The title carries `@NotBlank`, which
      rejects a null title, so through validation the title is always present. */
  predicate ValidUpdateRequest(req: UpdateTaskRequest) {
    req.title.Some? && ValidTitle(req.title.value) && ValidDescription(req.description)
  }

  class TaskService {
    /** The `tasks` table. */
    var tasks: map<int, Task>
    /** The next value of the identity column. */
    var nextId: int
    const userService: UserService

    /** Each row is stored under its own id, an id the identity column has already handed
        out, and its owner is a row of the users table (the non-null foreign key). */
    ghost predicate Valid()
      reads this, userService
    {
      && userService.Valid()
      && 1 <= nextId
      && forall id | id in tasks ::
           && tasks[id].taskId == id
           && 1 <= id < nextId
           && tasks[id].ownerId in userService.users
    }

    /** Every row satisfies the entity's field constraints. */
    ghost predicate RowsWellFormed()
      reads this
    {
      forall id | id in tasks :: TaskModel.ValidFields(tasks[id])
    }

    constructor (userService: UserService)
      requires userService.Valid()
      ensures Valid() && RowsWellFormed()
      ensures tasks == map[] && nextId == 1 && this.userService == userService
    {
      this.userService := userService;
      tasks := map[];
      nextId := 1;
    }

    /** `createTask`: the owner must be an active user; the new row takes the request's title
        and description, and its status, or `Todo` when the request has none. */
    method CreateTask(req: CreateTaskRequest, now: int) returns (r: Result<Task>)
      requires Valid()
      modifies this
      ensures Valid()
      ensures old(RowsWellFormed()) && ValidCreateRequest(req) ==> RowsWellFormed()
      ensures !userService.IsActiveUser(req.userId) ==>
        r == Err(NotFound("User", "id")) && tasks == old(tasks) && nextId == old(nextId)
      ensures userService.IsActiveUser(req.userId) ==>
        var id := old(nextId);
        && id !in old(tasks)
        && id in tasks
        && tasks == old(tasks)[id := tasks[id]]
        && nextId == id + 1
        && r == Ok(tasks[id])
        && tasks[id].taskId == id
        && tasks[id].title == req.title
        && tasks[id].description == req.description
        && tasks[id].status == (if req.status.Some? then req.status.value else Todo)
        && tasks[id].ownerId == req.userId
        && tasks[id].createdAt == tasks[id].updatedAt == now
    {
      var user := userService.GetUserById(req.userId);
      if user.Err? {
        return Err(user.error);
      }
      var status := if req.status.Some? then req.status.value else Todo;
      var draft := TaskDraft(req.title, req.description, Some(status), user.value.userId);
      var task := OnCreate(draft, nextId, now);
      tasks := tasks[nextId := task];
      nextId := nextId + 1;
      r := Ok(task);
    }

    /** `getTasksByUserId`: the owner must be an active user; the result is every task whose
        owner is that user. */
    method GetTasksByUserId(userId: int) returns (r: Result<set<Task>>)
      ensures r.Err? <==> !userService.IsActiveUser(userId)
      ensures r.Err? ==> r.error == NotFound("User", "id")
      ensures r.Ok? ==> forall t :: t in r.value <==> t.ownerId == userId && exists id | id in tasks :: tasks[id] == t
    {
      var active := userService.ExistsById(userId);
      if !active {
        return Err(NotFound("User", "id"));
      }
      r := Ok(set id | id in tasks && tasks[id].ownerId == userId :: tasks[id]);
    }

    /** `getAllTasks`: every task. */
    method GetAllTasks() returns (result: set<Task>)
      ensures forall t :: t in result <==> exists id | id in tasks :: tasks[id] == t
    {
      result := set id | id in tasks :: tasks[id];
    }

    /** `updateTask`: a partial update. A missing task is not found. A given user id must be
        an active user, or the whole update is abandoned; otherwise the task moves to that
        owner. Title, description and status are overwritten only where the request has a
        value. The update time is stamped only when something changed. */
    method UpdateTask(taskId: int, req: UpdateTaskRequest, now: int) returns (r: Result<Task>)
      requires Valid()
      modifies this
      ensures Valid() && nextId == old(nextId) && tasks.Keys == old(tasks).Keys
      ensures old(RowsWellFormed()) && ValidUpdateRequest(req) ==> RowsWellFormed()
      ensures taskId !in old(tasks) ==> r == Err(NotFound("Task", "id")) && tasks == old(tasks)
      ensures taskId in old(tasks) && req.userId.Some? && !userService.IsActiveUser(req.userId.value) ==>
        r == Err(NotFound("User", "id")) && tasks == old(tasks)
      ensures taskId in old(tasks) && (req.userId.Some? ==> userService.IsActiveUser(req.userId.value)) ==>
        var before := old(tasks)[taskId];
        var after := tasks[taskId];
        && tasks == old(tasks)[taskId := after]
        && r == Ok(after)
        && after.taskId == taskId
        && after.ownerId == (if req.userId.Some? then req.userId.value else before.ownerId)
        && after.title == (if req.title.Some? then req.title.value else before.title)
        && after.description == (if req.description.Some? then req.description else before.description)
        && after.status == (if req.status.Some? then req.status.value else before.status)
        && after.createdAt == before.createdAt
        && after.updatedAt == (if after.(updatedAt := before.updatedAt) == before then before.updatedAt else now)
    {
      if taskId !in tasks {
        return Err(NotFound("Task", "id"));
      }
      var existing := tasks[taskId];
      if req.userId.Some? {
        var user := userService.GetUserById(req.userId.value);
        if user.Err? {
          return Err(user.error);
        }
        existing := existing.(ownerId := user.value.userId);
      }
      if req.title.Some? {
        existing := existing.(title := req.title.value);
      }
      if req.description.Some? {
        existing := existing.(description := req.description);
      }
      if req.status.Some? {
        existing := existing.(status := req.status.value);
      }
      if existing != tasks[taskId] {
        existing := OnUpdate(existing, now);
      }
      tasks := tasks[taskId := existing];
      r := Ok(existing);
    }

    /** `deleteTask`: a hard delete. A missing task is not found; otherwise exactly that row
        is removed and every other row is kept. */
    method DeleteTask(id: int) returns (r: Result<()>)
      requires Valid()
      modifies this
      ensures Valid() && nextId == old(nextId)
      ensures old(RowsWellFormed()) ==> RowsWellFormed()
      ensures id !in old(tasks) ==> r == Err(NotFound("Task", "id")) && tasks == old(tasks)
      ensures id in old(tasks) ==> r == Ok(()) && tasks == old(tasks) - {id}
    {
      if id !in tasks {
        return Err(NotFound("Task", "id"));
      }
      tasks := tasks - {id};
      r := Ok(());
    }
  }
}
