/**
 * The read side of the task controller (server/Controllers/TasksController.cs):
 * lookup by id and the three list queries, as functions over the table,
 * a map from id to record.
 */
module TaskQueries {
  import opened Models

  type Table = map<int, WorkflowTask>

  /** Every record is stored under its own id (the table's primary key). */
  predicate IdsMatch(m: Table) {
    forall k :: k in m ==> m[k].id == k
  }

  /** The outcome of a lookup by id. */
  datatype Lookup = Found(task: WorkflowTask) | NotFound

  /** GET /api/tasks/{id}: the stored record, or NotFound when the id is absent. */
  function GetTask(m: Table, id: int): (r: Lookup)
    ensures r.NotFound? <==> id !in m
    ensures r.Found? ==> r.task == m[id]
  {
    if id in m then Found(m[id]) else NotFound
  }

  // ---------------------------------------------------------------------
  // From the table to a sequence

  predicate IsLeast(k: int, s: set<int>) {
    forall j :: j in s ==> k <= j
  }

  lemma Pick(s: set<int>) returns (x: int)
    requires s != {}
    ensures x in s
  {
    if forall y :: y !in s { assert false; }
    x :| x in s;
  }

  lemma {:induction false} HasLeast(s: set<int>)
    requires s != {}
    ensures exists k :: k in s && IsLeast(k, s)
    decreases |s|
  {
    var x := Pick(s);
    var rest := s - {x};
    if rest == {} {
      assert s == {x};
      assert IsLeast(x, s);
    } else {
      HasLeast(rest);
      var k :| k in rest && IsLeast(k, rest);
      var least := if x < k then x else k;
      forall j | j in s ensures least <= j {
        if j != x { assert j in rest; }
      }
      assert least in s && IsLeast(least, s);
    }
  }

  /** The smallest id of a non-empty set of ids. */
  function Least(s: set<int>): (k: int)
    requires s != {}
    ensures k in s && forall j :: j in s ==> k <= j
  {
    HasLeast(s);
    var k :| k in s && IsLeast(k, s); k
  }

  /** The table's records, each exactly once (a full scan, smallest id first). */
  function Records(m: Table): (s: seq<WorkflowTask>)
    requires IdsMatch(m)
    ensures multiset(s) == multiset(m.Values)
    ensures |s| == |m|
    decreases |m|
  {
    if |m| == 0 then
      assert m.Values == {};
      []
    else
      var k := Least(m.Keys);
      var rest := m - {k};
      assert rest.Keys == m.Keys - {k};
      assert |rest| == |m| - 1;
      ValuesWithoutKey(m, k);
      [m[k]] + Records(rest)
  }

  /** Removing one id from the table removes exactly its record from the values. */
  lemma ValuesWithoutKey(m: Table, k: int)
    requires IdsMatch(m) && k in m
    ensures multiset((m - {k}).Values) + multiset{m[k]} == multiset(m.Values)
  {
    var rest := m - {k};
    forall j | j in rest ensures rest[j] != m[k] {
      assert rest[j].id == j;
    }
    NotStored(rest, m[k]);
    assert m.Values == rest.Values + {m[k]} by {
      forall v | v in m.Values ensures v in rest.Values + {m[k]} {
        StoredUnderSomeId(m, v);
        var j :| j in m && m[j] == v;
        if j != k { assert rest[j] == v; }
      }
    }
  }

  /** A value of the table is stored under some id. */
  lemma StoredUnderSomeId(m: Table, v: WorkflowTask)
    requires v in m.Values
    ensures exists k :: k in m && m[k] == v
  {
    if forall k :: k in m ==> m[k] != v { assert false; }
  }

  /** A record stored under no id is not a value of the table. */
  lemma NotStored(m: Table, v: WorkflowTask)
    requires forall k :: k in m ==> m[k] != v
    ensures v !in m.Values
  {
    if v in m.Values {
      StoredUnderSomeId(m, v);
      assert false;
    }
  }

  // ---------------------------------------------------------------------
  // Ordering

  /** The two orders the queries use. */
  datatype Order = NewestFirst | EarliestScheduledFirst

  /**
   * `a` may stand before `b`. NewestFirst compares creation times, later
   * first. EarliestScheduledFirst compares schedule times, earlier first;
   * an absent schedule time is placed before every present one.
   */
  predicate Precedes(a: WorkflowTask, b: WorkflowTask, o: Order): (p: bool)
    ensures o == NewestFirst ==> (p <==> a.createdAt >= b.createdAt)
    ensures o == EarliestScheduledFirst && a.scheduledFor.Some? && b.scheduledFor.Some? ==>
      (p <==> a.scheduledFor.value <= b.scheduledFor.value)
  {
    if o == NewestFirst then a.createdAt >= b.createdAt
    else if a.scheduledFor.None? then true
    else if b.scheduledFor.None? then false
    else a.scheduledFor.value <= b.scheduledFor.value
  }

  /** Any two records are ordered one way or the other. */
  lemma PrecedesTotal(a: WorkflowTask, b: WorkflowTask, o: Order)
    ensures Precedes(a, b, o) || Precedes(b, a, o)
  {
  }

  lemma PrecedesTransitive(a: WorkflowTask, b: WorkflowTask, c: WorkflowTask, o: Order)
    requires Precedes(a, b, o) && Precedes(b, c, o)
    ensures Precedes(a, c, o)
  {
  }

  predicate Sorted(s: seq<WorkflowTask>, o: Order) {
    forall i, j :: 0 <= i < j < |s| ==> Precedes(s[i], s[j], o)
  }

  /** Places `t` into the sorted `s`, just before the first record it may precede. */
  function Insert(t: WorkflowTask, s: seq<WorkflowTask>, o: Order): (r: seq<WorkflowTask>)
    requires Sorted(s, o)
    ensures Sorted(r, o)
    ensures multiset(r) == multiset(s) + multiset{t}
  {
    if s == [] then [t]
    else if Precedes(t, s[0], o) then
      forall y | y in s ensures Precedes(t, y, o) {
        var i :| 0 <= i < |s| && s[i] == y;
        if i > 0 { PrecedesTransitive(t, s[0], y, o); }
      }
      SortedCons(t, s, o);
      [t] + s
    else
      var tail := Insert(t, s[1..], o);
      assert s == [s[0]] + s[1..];
      PrecedesTotal(t, s[0], o);
      forall x | x in tail ensures Precedes(s[0], x, o) {
        assert x in multiset(tail);
      }
      SortedCons(s[0], tail, o);
      [s[0]] + tail
  }

  lemma SortedCons(x: WorkflowTask, s: seq<WorkflowTask>, o: Order)
    requires Sorted(s, o)
    requires forall y :: y in s ==> Precedes(x, y, o)
    ensures Sorted([x] + s, o)
  {
  }

  /** A stable insertion sort of `s` into order `o`. */
  function Sort(s: seq<WorkflowTask>, o: Order): (r: seq<WorkflowTask>)
    ensures Sorted(r, o)
    ensures multiset(r) == multiset(s)
  {
    if s == [] then []
    else
      assert s == [s[0]] + s[1..];
      Insert(s[0], Sort(s[1..], o), o)
  }

  // ---------------------------------------------------------------------
  // The list queries

  /** The rows whose task type is `taskType` (the query's Where clause). */
  function WhereType(m: Table, taskType: string): (w: Table)
    ensures w.Keys <= m.Keys
    ensures forall k :: k in w ==> w[k] == m[k] && w[k].taskType == Some(taskType)
    ensures forall k :: k in m && m[k].taskType == Some(taskType) ==> k in w
  {
    map k | k in m && m[k].taskType == Some(taskType) :: m[k]
  }

  /** GET /api/tasks: every record exactly once, most recently created first. */
  function GetTasks(m: Table): (r: seq<WorkflowTask>)
    requires IdsMatch(m)
    ensures multiset(r) == multiset(m.Values)
    ensures |r| == |m|
    ensures forall i, j :: 0 <= i < j < |r| ==> r[i].createdAt >= r[j].createdAt
  {
    Sort(Records(m), NewestFirst)
  }

  /** GET /api/tasks/immediate: exactly the "immediate" records, most recently created first. */
  function GetImmediateTasks(m: Table): (r: seq<WorkflowTask>)
    requires IdsMatch(m)
    ensures multiset(r) == multiset(set t | t in m.Values && t.taskType == Some(Immediate))
    ensures forall i, j :: 0 <= i < j < |r| ==> r[i].createdAt >= r[j].createdAt
  {
    WhereTypeValues(m, Immediate);
    Sort(Records(WhereType(m, Immediate)), NewestFirst)
  }

  /**
   * GET /api/tasks/scheduled: exactly the "scheduled" records, earliest schedule
   * time first among those that have one.
   */
  function GetScheduledTasks(m: Table): (r: seq<WorkflowTask>)
    requires IdsMatch(m)
    ensures multiset(r) == multiset(set t | t in m.Values && t.taskType == Some(Scheduled))
    ensures forall i, j :: 0 <= i < j < |r| && r[i].scheduledFor.Some? && r[j].scheduledFor.Some? ==>
      r[i].scheduledFor.value <= r[j].scheduledFor.value
  {
    WhereTypeValues(m, Scheduled);
    Sort(Records(WhereType(m, Scheduled)), EarliestScheduledFirst)
  }

  lemma WhereTypeValues(m: Table, taskType: string)
    requires IdsMatch(m)
    ensures IdsMatch(WhereType(m, taskType))
    ensures WhereType(m, taskType).Values == set t | t in m.Values && t.taskType == Some(taskType)
  {
  }
}
