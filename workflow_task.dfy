/**
 * The workflow task record (server/Models/WorkflowTask.cs): its fields, the
 * values a freshly constructed record carries, and the declarative
 * [Required]/[MaxLength] constraints read as a validity predicate.
 */
module Models {

  datatype Option<T> = None | Some(value: T)

  /** A point in time (a UTC DateTime); only its order matters here. */
  type Timestamp = int

  const MaxTitleLength := 200
  const MaxDescriptionLength := 1000

  const Immediate := "immediate"
  const Scheduled := "scheduled"
  const Pending := "pending"
  const InProgress := "in_progress"
  const CompletedStatus := "completed"

  /**
   * One row of the task table. TaskType and Status are free strings (the
   * comments in the source list the intended values, nothing enforces them)
   * and may be null at run time, so they are optional here.
   */
  datatype WorkflowTask = WorkflowTask(
    id: int,
    title: string,
    description: Option<string>,
    createdAt: Timestamp,
    scheduledFor: Option<Timestamp>,
    isCompleted: bool,
    completedAt: Option<Timestamp>,
    taskType: Option<string>,
    status: Option<string>)

  /**
   * `new WorkflowTask()` at time `now`: every property initialiser applied.
   * Such a record is invalid, and only because of its empty title.
   */
  function NewTask(now: Timestamp): (t: WorkflowTask)
    ensures ValidationErrors(t) == {TitleField}
    ensures TypeMatchesSchedule(t) && CompletionConsistent(t)
  {
    WorkflowTask(
      id := 0,
      title := "",
      description := None,
      createdAt := now,
      scheduledFor := None,
      isCompleted := false,
      completedAt := None,
      taskType := Some(Immediate),
      status := Some(Pending))
  }

  lemma NewTaskDefaults(now: Timestamp)
    ensures var t := NewTask(now);
      && t.id == 0 && t.title == "" && t.description == None
      && t.createdAt == now && t.scheduledFor == None
      && !t.isCompleted && t.completedAt == None
      && t.taskType == Some(Immediate) && t.status == Some(Pending)
  {
  }

  // ---------------------------------------------------------------------
  // Validation attributes

  /** The properties a validation error can name. */
  datatype Field = TitleField | DescriptionField | TaskTypeField | StatusField

  /**
   * [Required] on a string: present and not empty (the attribute's default
   * rejects the empty string as well as null).
   */
  predicate Required(s: Option<string>) {
    s.Some? && s.value != ""
  }

  /** [MaxLength(n)] on a string: null passes, otherwise at most n characters. */
  predicate WithinMaxLength(s: Option<string>, n: nat) {
    s.None? || |s.value| <= n
  }

  /** The record satisfies every attribute on it. */
  predicate Valid(t: WorkflowTask): (v: bool)
    ensures v <==>
      && 0 < |t.title| <= MaxTitleLength
      && (t.description.None? || |t.description.value| <= MaxDescriptionLength)
      && t.taskType.Some? && t.taskType.value != ""
      && t.status.Some? && t.status.value != ""
  {
    && Required(Some(t.title)) && WithinMaxLength(Some(t.title), MaxTitleLength)
    && WithinMaxLength(t.description, MaxDescriptionLength)
    && Required(t.taskType)
    && Required(t.status)
  }

  /**
   * The properties named by the validation results when every property is
   * validated; the record is valid exactly when nothing is named.
   */
  function ValidationErrors(t: WorkflowTask): (errs: set<Field>)
    ensures errs == {} <==> Valid(t)
    ensures TitleField in errs <==> t.title == "" || |t.title| > MaxTitleLength
    ensures DescriptionField in errs <==> t.description.Some? && |t.description.value| > MaxDescriptionLength
    ensures TaskTypeField in errs <==> t.taskType.None? || t.taskType.value == ""
    ensures StatusField in errs <==> t.status.None? || t.status.value == ""
  {
    (if Required(Some(t.title)) && WithinMaxLength(Some(t.title), MaxTitleLength) then {} else {TitleField})
    + (if WithinMaxLength(t.description, MaxDescriptionLength) then {} else {DescriptionField})
    + (if Required(t.taskType) then {} else {TaskTypeField})
    + (if Required(t.status) then {} else {StatusField})
  }

  /** Only title, description, task type and status take part in validation. */
  lemma ValidationIgnoresOtherFields(t: WorkflowTask, u: WorkflowTask)
    requires t.title == u.title && t.description == u.description
    requires t.taskType == u.taskType && t.status == u.status
    ensures ValidationErrors(t) == ValidationErrors(u)
    ensures Valid(t) <==> Valid(u)
  {
  }

  /** A 200-character title is accepted; one more character names Title. */
  lemma TitleLengthBoundary(t: WorkflowTask)
    ensures |t.title| == MaxTitleLength ==> TitleField !in ValidationErrors(t)
    ensures |t.title| == MaxTitleLength + 1 ==> TitleField in ValidationErrors(t) && !Valid(t)
  {
  }

  /** A null description passes; 1000 characters pass; 1001 name Description. */
  lemma DescriptionLengthBoundary(t: WorkflowTask)
    ensures t.description.None? ==> DescriptionField !in ValidationErrors(t)
    ensures t.description.Some? && |t.description.value| == MaxDescriptionLength ==> DescriptionField !in ValidationErrors(t)
    ensures t.description.Some? && |t.description.value| == MaxDescriptionLength + 1 ==> DescriptionField in ValidationErrors(t) && !Valid(t)
  {
  }

  /** A null task type or status makes the record invalid, naming that property. */
  lemma NullTypeOrStatusInvalid(t: WorkflowTask)
    ensures t.taskType.None? ==> TaskTypeField in ValidationErrors(t) && !Valid(t)
    ensures t.status.None? ==> StatusField in ValidationErrors(t) && !Valid(t)
  {
  }

  // ---------------------------------------------------------------------
  // Consistency the handlers keep (not enforced by the record itself)

  /** The task type says whether a schedule time is present. */
  predicate TypeMatchesSchedule(t: WorkflowTask) {
    t.taskType == Some(if t.scheduledFor.Some? then Scheduled else Immediate)
  }

  /** A "completed" status comes with the completion flag and time set. */
  predicate CompletionConsistent(t: WorkflowTask) {
    t.status == Some(CompletedStatus) ==> t.isCompleted && t.completedAt.Some?
  }
}
