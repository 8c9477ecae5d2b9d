/** The `Task` entity: a row of the `tasks` table, its field constraints, the defaulting of
    its status, and its create/update timestamp hooks. */
module TaskModel {
  import opened Outcomes
  import opened Constraints

  /** The status enumeration. Only `Todo` is named by the code modelled here; nothing below
      depends on which other members exist. */
  datatype TaskStatus = Todo | InProgress | Done

  /** A stored task. The owning user is the foreign key `ownerId`; the status is never null. */
  datatype Task = Task(
    taskId: int,
    title: string,
    description: Option<string>,
    status: TaskStatus,
    ownerId: int,
    createdAt: int,
    updatedAt: int)

  /** A task object before it is persisted: its status may still be null. */
  datatype TaskDraft = TaskDraft(title: string, description: Option<string>, status: Option<TaskStatus>, ownerId: int)

  /** The builder when no status is given: the status takes its default, `Todo`. The
      modelled `createTask` always passes a status (the request's, or `Todo`), so no service
      path here relies on this default; it is the entity's own promise. */
  function Build(title: string, description: Option<string>, ownerId: int): (d: TaskDraft)
    ensures d.status == Some(Todo)
    ensures d.title == title && d.description == description && d.ownerId == ownerId
  {
    TaskDraft(title, description, Some(Todo), ownerId)
  }

  // ---------------------------------------------------------------------------
  // Field constraints

  /** `@NotBlank` and `@Size(max = 100)`. */
  predicate ValidTitle(s: string) {
    !IsBlank(s) && |s| <= 100
  }

  /** `@Size(max = 2000)`; a null description is valid. */
  predicate ValidDescription(d: Option<string>) {
    d.Some? ==> |d.value| <= 2000
  }

  predicate ValidFields(t: Task) {
    ValidTitle(t.title) && ValidDescription(t.description)
  }

  // ---------------------------------------------------------------------------
  // Lifecycle hooks

  /** `@PrePersist`: the draft becomes row `id`; a null status becomes `Todo`, a given one is
      kept, and both timestamps take the same reading of the clock. */
  function OnCreate(draft: TaskDraft, id: int, now: int): (t: Task)
    ensures draft.status.Some? ==> t.status == draft.status.value
    ensures draft.status.None? ==> t.status == Todo
    ensures t.createdAt == t.updatedAt == now
    ensures t.taskId == id && t.title == draft.title && t.description == draft.description && t.ownerId == draft.ownerId
  {
    var status := if draft.status.Some? then draft.status.value else Todo;
    Task(id, draft.title, draft.description, status, draft.ownerId, now, now)
  }

  /** `@PreUpdate`: only `updatedAt` changes. */
  function OnUpdate(t: Task, now: int): (r: Task)
    ensures r.updatedAt == now
    ensures r.(updatedAt := t.updatedAt) == t
  {
    t.(updatedAt := now)
  }
}
