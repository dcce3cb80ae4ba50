# Workflow task table and its controller, in Dafny

This project models the core of a small task-tracking service: the
`WorkflowTask` record with its field defaults and validation attributes, and
the `TasksController` handlers that list, look up, create, update, complete and
delete records in the task table.

- `workflow_task.dfy`, module `Models`: the record as a datatype, the
  freshly constructed record (`NewTask`), the `[Required]`/`[MaxLength]`
  attributes as the predicate `Valid`, and `ValidationErrors`, the set of
  properties a full validation names. It also holds the two consistency
  rules the handlers keep. The first is that the task type agrees with the
  presence of a schedule time. The second is that status "completed" comes
  with `isCompleted` and `completedAt` set.
- `task_queries.dfy`, module `TaskQueries`: the table as a map from id to
  record, and the read handlers as functions over it. `GetTask` is the lookup
  by id. `GetTasks`, `GetImmediateTasks` and `GetScheduledTasks` are the
  three list queries. They are built from a full scan of the table
  (`Records`), the `Where` filter on the task type (`WhereType`) and an
  insertion sort (`Sort`).
- `tasks_controller.dfy`, module `TasksController`: the create and update
  request records, and three functions for what a handler does to one
  record. `FromCreateDto` builds the new record, `Patched` is the
  partial-patch merge of an update, and `Completed` is completion. The class
  `TaskStore` holds the table and its identity counter. Its methods
  `CreateTask`, `UpdateTask`, `CompleteTask` and `DeleteTask` change the
  table in place. Each is proved against the functions above, with its
  not-found path and its "nothing else changes" frame.

The clock is a parameter: every handler that reads the current UTC time takes
`now`. Timestamps are integers, and only their order is used.

The create handler does not validate. `CreateTaskDto`
(server/Controllers/TasksController.cs:159-164) carries no length attributes,
and the handler never runs the record's validation. So the handler itself
does not reject an over-long title or description; the same holds for the
update handler. Whether the database rejects such a value when the change is
saved is storage behaviour, left out. `FromCreateDto` states instead when
the record it builds would be valid. Task type and status are free strings,
not closed enumerations.

`[Required]` is modelled as "present and not empty", which is the
attribute's default. The same rule applies to Title, TaskType and Status.

## Model

| member | source | states |
|---|---|---|
| `Models.NewTask` | server/Models/WorkflowTask.cs:7-30 | a freshly constructed record fails validation on Title alone; it already satisfies both consistency rules |
| `Models.NewTaskDefaults` | server/Models/WorkflowTask.cs:7-30 | defaults: id 0, empty title, no description, created now, not scheduled, not completed, type "immediate", status "pending" |
| `Models.Valid` | server/Models/WorkflowTask.cs:9-30 | the attributes read as one predicate: valid exactly when the title has 1 to 200 characters, the description is null or at most 1000 characters, and task type and status are present and non-empty |
| `Models.ValidationErrors` | server/Models/WorkflowTask.cs:9-30 | names Title iff the title is empty or over 200 characters; Description iff it is over 1000; TaskType or Status iff it is null or empty; nothing is named exactly when the record is `Valid` |
| `Models.ValidationIgnoresOtherFields` | server/Models/WorkflowTask.cs:9-30 | records agreeing on title, description, type and status get the same verdict and errors: no other field affects validity |
| `Models.TitleLengthBoundary` | server/Models/WorkflowTask.cs:9-11 | a 200-character title is accepted; a 201-character title names Title and makes the record invalid |
| `Models.DescriptionLengthBoundary` | server/Models/WorkflowTask.cs:13-14 | a null description or one of 1000 characters is accepted; 1001 characters names Description and makes the record invalid |
| `Models.NullTypeOrStatusInvalid` | server/Models/WorkflowTask.cs:24-30 | a null task type or status makes the record invalid and names that property |
| `TaskQueries.Precedes` | server/Controllers/TasksController.cs:48-58 | the sort keys: newest-first compares creation times, later first; earliest-scheduled-first compares schedule times, earlier first, when both are present |
| `TaskQueries.GetTask` | server/Controllers/TasksController.cs:30-40 | NotFound exactly when the id is absent; otherwise the record stored under it |
| `TaskQueries.Records` | server/Controllers/TasksController.cs:23-25 | the full scan yields every stored record exactly once (multiset equal to the table's values) |
| `TaskQueries.WhereType` | server/Controllers/TasksController.cs:46-47 | keeps exactly the rows of the given task type, unchanged |
| `TaskQueries.Sort` | server/Controllers/TasksController.cs:48-58 | the result is ordered pairwise for the chosen order and is a permutation of the input |
| `TaskQueries.GetTasks` | server/Controllers/TasksController.cs:21-26 | every stored record exactly once, creation time non-increasing |
| `TaskQueries.GetImmediateTasks` | server/Controllers/TasksController.cs:44-50 | exactly the records whose type is "immediate", each once, creation time non-increasing |
| `TaskQueries.GetScheduledTasks` | server/Controllers/TasksController.cs:54-60 | exactly the records whose type is "scheduled", each once, schedule time non-decreasing among records that have one |
| `TasksController.FromCreateDto` | server/Controllers/TasksController.cs:66-74 | title, description and schedule copied from the request; type "scheduled" iff a schedule time is given, else "immediate"; status "pending", created now, not completed; both consistency rules hold; valid iff the title is 1 to 200 characters and the description at most 1000 |
| `TasksController.Patched` | server/Controllers/TasksController.cs:93-113 | id and creation time never change; the type/schedule rule and the completion rule are preserved |
| `TasksController.Completed` | server/Controllers/TasksController.cs:131-133 | flag set, status "completed", completion time now, every other field unchanged |
| `TasksController.CompleteIsStatusPatch` | server/Controllers/TasksController.cs:99-133 | completing a record equals updating it with status "completed" and nothing else |
| `TasksController.PatchKeepsAbsentFields` | server/Controllers/TasksController.cs:93-113 | a null request field leaves its stored field (and, for status and schedule, the side fields) unchanged |
| `TasksController.PatchStoresPresentFields` | server/Controllers/TasksController.cs:93-113 | a non-null request field is stored as given; a schedule time also sets type "scheduled" |
| `TasksController.PatchWithNothingChangesNothing` | server/Controllers/TasksController.cs:93-113 | an update whose fields are all null leaves the record as it was |
| `TasksController.PatchCompletionRule` | server/Controllers/TasksController.cs:99-107 | status "completed" sets the flag and refreshes the completion time to now even if already completed; any other status keeps flag and time, so "completed" to "pending" stays flagged |
| `TasksController.PatchNeverMakesImmediate` | server/Controllers/TasksController.cs:109-113 | no update turns a task into "immediate" or clears its schedule time |
| `TasksController.PatchIdempotent` | server/Controllers/TasksController.cs:93-113 | applying the same update twice at the same instant equals applying it once |
| `TasksController.ListedAfterInsert` | server/Controllers/TasksController.cs:76-77 | adding a record under a new id adds exactly that record to the full listing |
| `TasksController.UnlistedAfterRemove` | server/Controllers/TasksController.cs:151-152 | removing an id takes exactly its record out of the full listing |
| `TasksController.TaskStore.CreateTask` | server/Controllers/TasksController.cs:64-80 | stores `FromCreateDto` under an id never issued before, returns it as created, leaves every other record unchanged, keeps the consistency rules |
| `TasksController.TaskStore.UpdateTask` | server/Controllers/TasksController.cs:84-118 | absent id: NotFound, table unchanged; otherwise the record becomes `Patched` (merged step by step) and is returned, no other record changes |
| `TasksController.TaskStore.CompleteTask` | server/Controllers/TasksController.cs:122-138 | absent id: NotFound, table unchanged; otherwise the record becomes `Completed` and is returned, no other record changes |
| `TasksController.TaskStore.DeleteTask` | server/Controllers/TasksController.cs:142-155 | absent id: NotFound, table unchanged; otherwise exactly that id is removed and a later lookup of it is NotFound |

## Left out

- HTTP routing, status codes, the Location header of a created reply and JSON (de)serialisation. A reply is one of `Ok`, `Created`, `NoContent` or `NotFoundResult`.
- `async` and `SaveChangesAsync`, storage failures, and concurrent requests. Each handler is one atomic step on the table. This includes the database refusing a title over 200 or a description over 1000 characters when a create or update is saved (the column lengths of server/Data/WorkflowDbContext.cs:22-23 on the PostgreSQL provider); the model stores such values.
- The wall clock and DateTime arithmetic. Time is the integer parameter `now`, and the model assumes the one instant read by a create serves both for the record's default and for `CreatedAt`.
- The identity column's 32-bit range. Ids come from an unbounded counter starting at 1.
- String lengths are counted in characters, not UTF-16 code units. Whitespace-only strings are not treated as missing by `[Required]`.
- A null Title at run time. The title is a non-nullable string, as declared, and the create request's title is always present. A request missing its title is rejected by deserialisation, which is not modelled.
- TaskQueries.GetScheduledTasks: promises order only between records that both have a schedule time. Where null schedule times sort depends on the query provider. The model's `Sort` places them first but the contract does not promise it.
- TaskQueries.GetTasks: the order among records with equal creation times is not promised, because it depends on the query provider. The same holds for `GetImmediateTasks`.
- Records inserted into the table directly, bypassing the handlers. The list queries accept any table whose records sit under their own ids, but `TaskStore` only offers the handlers.
- Service registration, CORS, static files and database creation (server/Program.cs). Table mapping and column defaults (server/Data/WorkflowDbContext.cs). The fetch client (client/src/services/api.ts). None of these is part of this model.
