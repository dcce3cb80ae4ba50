/**
 * The write side of the task controller (server/Controllers/TasksController.cs):
 * the request records, the record a create builds, the partial-patch merge of
 * an update, completion, and the task table with the four handlers that
 * change it. The wall clock is the parameter `now`.
 */
module TasksController {
  import opened Models
  import opened TaskQueries

  /** The body of a create request; the title is mandatory. */
  datatype CreateTaskDto = CreateTaskDto(
    title: string,
    description: Option<string>,
    scheduledFor: Option<Timestamp>)

  /** The body of an update request; a null field means "leave as is". */
  datatype UpdateTaskDto = UpdateTaskDto(
    title: Option<string>,
    description: Option<string>,
    status: Option<string>,
    scheduledFor: Option<Timestamp>)

  /** The action results the handlers produce. */
  datatype Reply = Ok(task: WorkflowTask) | Created(task: WorkflowTask) | NoContent | NotFoundResult

  // ---------------------------------------------------------------------
  // What a handler does to one record

  /**
   * The record a create request describes, before the table gives it an id.
   * The handler validates nothing, so it does not reject an over-long title
   * or description; the record is valid exactly when the request's title
   * and description are within the limits.
   */
  function FromCreateDto(dto: CreateTaskDto, now: Timestamp): (t: WorkflowTask)
    ensures t.title == dto.title && t.description == dto.description
    ensures t.scheduledFor == dto.scheduledFor && t.createdAt == now
    ensures t.taskType == Some(Scheduled) <==> dto.scheduledFor.Some?
    ensures t.taskType == Some(Immediate) <==> dto.scheduledFor.None?
    ensures t.status == Some(Pending) && !t.isCompleted && t.completedAt.None?
    ensures TypeMatchesSchedule(t) && CompletionConsistent(t)
    ensures Valid(t) <==>
      0 < |dto.title| <= MaxTitleLength
      && (dto.description.None? || |dto.description.value| <= MaxDescriptionLength)
  {
    NewTask(now).(
      title := dto.title,
      description := dto.description,
      taskType := Some(if dto.scheduledFor.Some? then Scheduled else Immediate),
      scheduledFor := dto.scheduledFor,
      createdAt := now,
      status := Some(Pending))
  }

  /**
   * The partial-patch merge of an update request into `t`: every non-null
   * field of the request replaces the stored one; a "completed" status also
   * marks the record complete at `now`; a schedule time also makes the task
   * "scheduled".
   */
  function Patched(t: WorkflowTask, dto: UpdateTaskDto, now: Timestamp): (u: WorkflowTask)
    ensures u.id == t.id && u.createdAt == t.createdAt
    ensures TypeMatchesSchedule(t) ==> TypeMatchesSchedule(u)
    ensures CompletionConsistent(t) ==> CompletionConsistent(u)
  {
    var completing := dto.status == Some(CompletedStatus);
    t.(
      title := if dto.title.Some? then dto.title.value else t.title,
      description := if dto.description.Some? then dto.description else t.description,
      status := if dto.status.Some? then dto.status else t.status,
      isCompleted := if completing then true else t.isCompleted,
      completedAt := if completing then Some(now) else t.completedAt,
      scheduledFor := if dto.scheduledFor.Some? then dto.scheduledFor else t.scheduledFor,
      taskType := if dto.scheduledFor.Some? then Some(Scheduled) else t.taskType)
  }

  /** Unconditional completion of `t` at `now`. */
  function Completed(t: WorkflowTask, now: Timestamp): (u: WorkflowTask)
    ensures u.isCompleted && u.status == Some(CompletedStatus) && u.completedAt == Some(now)
    ensures CompletionConsistent(u)
    ensures u.(isCompleted := t.isCompleted, status := t.status, completedAt := t.completedAt) == t
  {
    t.(isCompleted := true, status := Some(CompletedStatus), completedAt := Some(now))
  }

  /** Completing a record is the same as patching it with status "completed" alone. */
  lemma CompleteIsStatusPatch(t: WorkflowTask, now: Timestamp)
    ensures Completed(t, now) == Patched(t, UpdateTaskDto(None, None, Some(CompletedStatus), None), now)
  {
  }

  /** A field absent from the request keeps its stored value. */
  lemma PatchKeepsAbsentFields(t: WorkflowTask, dto: UpdateTaskDto, now: Timestamp)
    ensures var u := Patched(t, dto, now);
      && (dto.title.None? ==> u.title == t.title)
      && (dto.description.None? ==> u.description == t.description)
      && (dto.status.None? ==> u.status == t.status && u.isCompleted == t.isCompleted && u.completedAt == t.completedAt)
      && (dto.scheduledFor.None? ==> u.scheduledFor == t.scheduledFor && u.taskType == t.taskType)
  {
  }

  /** A field present in the request is stored as given. */
  lemma PatchStoresPresentFields(t: WorkflowTask, dto: UpdateTaskDto, now: Timestamp)
    ensures var u := Patched(t, dto, now);
      && (dto.title.Some? ==> u.title == dto.title.value)
      && (dto.description.Some? ==> u.description == dto.description)
      && (dto.status.Some? ==> u.status == dto.status)
      && (dto.scheduledFor.Some? ==> u.scheduledFor == dto.scheduledFor && u.taskType == Some(Scheduled))
  {
  }

  /** An update whose fields are all null leaves the record exactly as it was. */
  lemma PatchWithNothingChangesNothing(t: WorkflowTask, now: Timestamp)
    ensures Patched(t, UpdateTaskDto(None, None, None, None), now) == t
  {
  }

  /**
   * Status "completed" marks the record complete at `now`, whatever it was
   * before; any other status leaves the completion flag and time alone, so
   * moving a completed task back to "pending" keeps it marked complete.
   */
  lemma PatchCompletionRule(t: WorkflowTask, dto: UpdateTaskDto, now: Timestamp)
    ensures var u := Patched(t, dto, now);
      && (dto.status == Some(CompletedStatus) ==> u.isCompleted && u.completedAt == Some(now))
      && (dto.status != Some(CompletedStatus) ==> u.isCompleted == t.isCompleted && u.completedAt == t.completedAt)
  {
  }

  /** No update makes a task "immediate" that was not already. */
  lemma PatchNeverMakesImmediate(t: WorkflowTask, dto: UpdateTaskDto, now: Timestamp)
    ensures Patched(t, dto, now).taskType == Some(Immediate) ==> t.taskType == Some(Immediate)
    ensures Patched(t, dto, now).scheduledFor.None? ==> t.scheduledFor.None?
  {
  }

  /** Sending the same update twice at the same instant has the effect of sending it once. */
  lemma PatchIdempotent(t: WorkflowTask, dto: UpdateTaskDto, now: Timestamp)
    ensures Patched(Patched(t, dto, now), dto, now) == Patched(t, dto, now)
  {
  }

  /** A record added under a new id is listed once more, and nothing else is. */
  lemma {:induction false} ListedAfterInsert(m: Table, t: WorkflowTask)
    requires IdsMatch(m) && t.id !in m
    ensures IdsMatch(m[t.id := t])
    ensures multiset(GetTasks(m[t.id := t])) == multiset(GetTasks(m)) + multiset{t}
  {
    var m' := m[t.id := t];
    assert m' - {t.id} == m;
    ValuesWithoutKey(m', t.id);
  }

  /** Removing an id takes exactly its record out of the listing. */
  lemma {:induction false} UnlistedAfterRemove(m: Table, id: int)
    requires IdsMatch(m) && id in m
    ensures IdsMatch(m - {id})
    ensures multiset(GetTasks(m - {id})) == multiset(GetTasks(m)) - multiset{m[id]}
  {
    ValuesWithoutKey(m, id);
  }

  // ---------------------------------------------------------------------
  // The task table

  /**
   * The task table: records by id, and the identity counter that gives each
   * new record its id. `issued` is every id handed out so far.
   */
  class TaskStore {
    var tasks: Table
    var nextId: int
    ghost var issued: set<int>

    ghost predicate Valid()
      reads this
    {
      && 1 <= nextId
      && IdsMatch(tasks)
      && tasks.Keys <= issued
      && (forall i :: i in issued ==> 1 <= i < nextId)
    }

    /**
     * Every record satisfies the consistency the handlers keep: task type
     * agrees with the schedule time, and "completed" comes with the
     * completion flag and time.
     */
    ghost predicate Consistent()
      reads this
    {
      forall k :: k in tasks ==> TypeMatchesSchedule(tasks[k]) && CompletionConsistent(tasks[k])
    }

    constructor ()
      ensures Valid() && Consistent()
      ensures tasks == map[] && issued == {}
    {
      tasks := map[];
      nextId := 1;
      issued := {};
    }

    /**
     * POST /api/tasks: a new record under an id never issued before; every
     * other record stays as it was.
     */
    method CreateTask(dto: CreateTaskDto, now: Timestamp) returns (reply: Reply)
      requires Valid()
      modifies this
      ensures Valid()
      ensures reply.Created?
      ensures reply.task == FromCreateDto(dto, now).(id := reply.task.id)
      ensures reply.task.id !in old(issued) && issued == old(issued) + {reply.task.id}
      ensures tasks == old(tasks)[reply.task.id := reply.task]
      ensures old(Consistent()) ==> Consistent()
    {
      var task := FromCreateDto(dto, now);
      task := task.(id := nextId);
      tasks := tasks[nextId := task];
      issued := issued + {nextId};
      nextId := nextId + 1;
      reply := Created(task);
    }

    /**
     * PUT /api/tasks/{id}: NotFound with the table unchanged when the id is
     * absent; otherwise the stored record is patched step by step and
     * returned, and no other record changes.
     */
    method UpdateTask(id: int, dto: UpdateTaskDto, now: Timestamp) returns (reply: Reply)
      requires Valid()
      modifies this
      ensures Valid() && issued == old(issued)
      ensures id !in old(tasks) ==> reply == NotFoundResult && tasks == old(tasks)
      ensures id in old(tasks) ==>
        reply == Ok(Patched(old(tasks)[id], dto, now)) && tasks == old(tasks)[id := reply.task]
      ensures old(Consistent()) ==> Consistent()
    {
      if id !in tasks {
        return NotFoundResult;
      }
      var task := tasks[id];
      if dto.title.Some? {
        task := task.(title := dto.title.value);
      }
      if dto.description.Some? {
        task := task.(description := dto.description);
      }
      if dto.status.Some? {
        task := task.(status := dto.status);
        if dto.status.value == CompletedStatus {
          task := task.(isCompleted := true);
          task := task.(completedAt := Some(now));
        }
      }
      if dto.scheduledFor.Some? {
        task := task.(scheduledFor := dto.scheduledFor);
        task := task.(taskType := Some(Scheduled));
      }
      tasks := tasks[id := task];
      reply := Ok(task);
    }

    /**
     * PUT /api/tasks/{id}/complete: NotFound with the table unchanged when the
     * id is absent; otherwise the record is marked complete at `now` and
     * nothing else changes.
     */
    method CompleteTask(id: int, now: Timestamp) returns (reply: Reply)
      requires Valid()
      modifies this
      ensures Valid() && issued == old(issued)
      ensures id !in old(tasks) ==> reply == NotFoundResult && tasks == old(tasks)
      ensures id in old(tasks) ==>
        reply == Ok(Completed(old(tasks)[id], now)) && tasks == old(tasks)[id := reply.task]
      ensures old(Consistent()) ==> Consistent()
    {
      if id !in tasks {
        return NotFoundResult;
      }
      var task := tasks[id];
      task := task.(isCompleted := true);
      task := task.(status := Some(CompletedStatus));
      task := task.(completedAt := Some(now));
      tasks := tasks[id := task];
      reply := Ok(task);
    }

    /**
     * DELETE /api/tasks/{id}: NotFound with the table unchanged when the id is
     * absent; otherwise exactly that record is removed, so a later lookup of
     * the id finds nothing.
     */
    method DeleteTask(id: int) returns (reply: Reply)
      requires Valid()
      modifies this
      ensures Valid() && issued == old(issued)
      ensures id !in old(tasks) ==> reply == NotFoundResult && tasks == old(tasks)
      ensures id in old(tasks) ==> reply == NoContent && tasks == old(tasks) - {id}
      ensures GetTask(tasks, id) == NotFound
      ensures old(Consistent()) ==> Consistent()
    {
      if id !in tasks {
        return NotFoundResult;
      }
      tasks := tasks - {id};
      reply := NoContent;
    }
  }
}
