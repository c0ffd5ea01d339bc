/**
Task creation and the sorted task lists, once from the live task states and once from the rows
persisted for them.
*/
module TaskScheduling {
  import opened BlockTree
  import opened TaskForest
  import opened Sorting

  /** The tasks of one kind: the cleanup tasks, or all others. */
  ghost function Kind(f: Forest, isCleanup: bool): Forest {
    map i | i in f && f[i].isCleanup == isCleanup :: f[i]
  }

  /** Children belong to the same kind as their parent. */
  ghost predicate Inherits(f: Forest) {
    forall i, p :: i in f && p in f && f[i].parent == Some(p) ==> f[i].isCleanup == f[p].isCleanup
  }

  lemma {:induction false} KindWellFormed(f: Forest, isCleanup: bool)
    requires WellFormed(f) && Inherits(f)
    ensures WellFormed(Kind(f, isCleanup))
  {
  }

  lemma {:induction false} KindPath(f: Forest, isCleanup: bool, i: nat)
    requires WellFormed(f) && Inherits(f) && i in Kind(f, isCleanup)
    ensures WellFormed(Kind(f, isCleanup)) && Path(Kind(f, isCleanup), i) == Path(f, i)
    decreases i
  {
    KindWellFormed(f, isCleanup);
    if f[i].parent.Some? {
      KindPath(f, isCleanup, f[i].parent.value);
    }
  }

  /** The display order of the tasks of one kind. */
  ghost function Preorder(f: Forest, bound: nat, isCleanup: bool): seq<nat> {
    Walk(Kind(f, isCleanup), bound, None, 0)
  }

  /** Sorting the tasks of one kind by the order of the whole forest gives their preorder. */
  lemma {:induction false} SortedKindIsPreorder(f: Forest, bound: nat, isCleanup: bool, s: seq<nat>)
    requires WellFormed(f) && Inherits(f) && Bounded(f, bound) && Sorted(f, s)
    requires forall i :: i in s <==> i in Kind(f, isCleanup)
    ensures s == Preorder(f, bound, isCleanup)
  {
    var g := Kind(f, isCleanup);
    KindWellFormed(f, isCleanup);
    forall i, j | 0 <= i < j < |s| ensures Order(g)(s[i], s[j]) {
      assert s[i] in g && s[j] in g;
      KindPath(f, isCleanup, s[i]);
      KindPath(f, isCleanup, s[j]);
      assert Order(f)(s[i], s[j]);
    }
    forall i | 0 <= i < |s| ensures s[i] in g {
      assert s[i] in s;
    }
    SortedIsPreorder(g, bound, s);
  }

  // ----- comparing two tasks -----

  /** Loop state of both comparators: `x` and `y` were reached by climbing from `a` and `b`; the
      deeper side climbs first, so the higher one has not moved yet. */
  ghost predicate Climbing(f: Forest, a: nat, b: nat, x: nat, y: nat)
    requires WellFormed(f)
  {
    && Above(f, x, a) && Above(f, y, b) && x != y && f[x].parent != f[y].parent
    && (f[x].depth > f[y].depth ==> y == b) && (f[y].depth > f[x].depth ==> x == a)
  }

  /** Where the loop returns because one side is the parent of the other. */
  lemma {:induction false} ParentDecides(f: Forest, a: nat, b: nat, x: nat, y: nat)
    requires WellFormed(f) && Climbing(f, a, b, x, y)
    ensures f[x].parent == Some(y) ==> y == b && !Before(f, a, b)
    ensures f[y].parent == Some(x) ==> x == a && Before(f, a, b)
  {
    if f[x].parent == Some(y) {
      AboveParent(f, x, a);
      AncestorFirstOf(f, b, x, a);
    }
    if f[y].parent == Some(x) {
      AboveParent(f, y, b);
      AncestorFirstOf(f, a, y, b);
    }
  }

  lemma {:induction false} AncestorFirstOf(f: Forest, p: nat, x: nat, a: nat)
    requires WellFormed(f) && Above(f, x, a) && p in f && f[x].parent == Some(p)
    ensures Before(f, p, a) && !Before(f, a, p)
  {
    assert |Path(f, p)| < |Path(f, x)| <= |Path(f, a)|;
    AncestorFirst(f, p, a);
  }

  function ClimbA(f: Forest, x: nat, y: nat): nat
    requires x in f && y in f
  {
    if f[x].depth >= f[y].depth && f[x].parent.Some? then f[x].parent.value else x
  }

  ghost predicate CanClimb(f: Forest, a: nat, b: nat, x: nat, y: nat)
    requires WellFormed(f) && a in f && b in f && x in f && y in f
  {
    && (f[x].depth >= f[y].depth ==> f[x].parent.Some?) && (f[y].depth >= f[x].depth ==> f[y].parent.Some?)
    && Climbed(f, a, b, x, y, ClimbA(f, x, y), ClimbA(f, y, x))
  }

  ghost predicate Climbed(f: Forest, a: nat, b: nat, x: nat, y: nat, x': nat, y': nat)
    requires WellFormed(f) && a in f && b in f && x in f && y in f
  {
    && x' in f && y' in f && f[x'].depth + f[y'].depth < f[x].depth + f[y].depth
    && (f[x'].parent != f[y'].parent ==> Climbing(f, a, b, x', y'))
    && (f[x'].parent == f[y'].parent ==> (Before(f, a, b) <==> x' < y'))
  }

  /** One round of climbing keeps the loop state or brings both sides under one parent. */
  lemma {:induction false} ClimbStep(f: Forest, a: nat, b: nat, x: nat, y: nat)
    requires WellFormed(f) && Climbing(f, a, b, x, y)
    requires f[x].parent != Some(y) && f[y].parent != Some(x)
    ensures CanClimb(f, a, b, x, y)
  {
    if f[x].depth >= f[y].depth { AboveParent(f, x, a); }
    if f[y].depth >= f[x].depth { AboveParent(f, y, b); }
    var x', y' := ClimbA(f, x, y), ClimbA(f, y, x);
    if f[x'].parent == f[y'].parent {
      SiblingsDecide(f, a, b, x', y');
    }
  }

  /** The comparator of the live scheduler, on task states. */
  method TaskLess(f: Forest, a: nat, b: nat) returns (less: bool)
    requires WellFormed(f) && a in f && b in f
    ensures less <==> Before(f, a, b)
  {
    var x, y := f[a], f[b];
    BeforeStrictTotal(f, a, b, b);
    if x.parent == y.parent {
      if a != b { SiblingsDecide(f, a, b, a, b); }
      return x.index < y.index;
    }
    while true
      invariant x.index in f && f[x.index] == x && y.index in f && f[y.index] == y
      invariant Climbing(f, a, b, x.index, y.index)
      decreases x.depth + y.depth
    {
      ParentDecides(f, a, b, x.index, y.index);
      if x.parent == Some(y.index) {
        return false;
      }
      if y.parent == Some(x.index) {
        return true;
      }
      ClimbStep(f, a, b, x.index, y.index);
      if x.depth > y.depth {
        x := f[x.parent.value];
      } else if y.depth > x.depth {
        y := f[y.parent.value];
      } else {
        x, y := f[x.parent.value], f[y.parent.value];
      }
      if x.parent == y.parent {
        return x.index < y.index;
      }
    }
  }

  // ----- persisted rows -----

  /** A persisted task; parent 0 stands for none. */
  datatype Row = Row(taskId: nat, parentTask: nat, isCleanup: bool)

  function ToRow(t: Task): Row {
    Row(t.index, if t.parent == None then 0 else t.parent.value, t.isCleanup)
  }

  /** The rows of a run hold every task of the forest once. */
  ghost predicate Persisted(f: Forest, rows: seq<Row>) {
    && (forall k :: 0 <= k < |rows| ==> rows[k].taskId in f && rows[k] == ToRow(f[rows[k].taskId]))
    && (forall i :: i in f ==> exists k :: 0 <= k < |rows| && rows[k].taskId == i)
    && (forall j, k :: 0 <= j < k < |rows| ==> rows[j].taskId != rows[k].taskId)
  }

  ghost predicate RowMap(f: Forest, taskMap: map<nat, Row>) {
    && (forall i :: i in taskMap <==> i in f)
    && (forall i :: i in taskMap ==> taskMap[i] == ToRow(f[i]))
  }

  method BuildTaskMap(ghost f: Forest, rows: seq<Row>) returns (taskMap: map<nat, Row>)
    requires Persisted(f, rows)
    ensures RowMap(f, taskMap)
  {
    taskMap := map[];
    for n := 0 to |rows|
      invariant forall i :: i in taskMap <==> exists k :: 0 <= k < n && rows[k].taskId == i
      invariant forall i :: i in taskMap ==> i in f && taskMap[i] == ToRow(f[i])
    {
      taskMap := taskMap[rows[n].taskId := rows[n]];
    }
  }

  /** The depth of a task, counted again along its rows. */
  method RowDepth(ghost f: Forest, taskMap: map<nat, Row>, row: Row) returns (depth: nat)
    requires WellFormed(f) && RowMap(f, taskMap) && row.taskId in f && row == ToRow(f[row.taskId])
    ensures depth == f[row.taskId].depth
  {
    depth := 0;
    var state := Some(row);
    while state.Some? && state.value.parentTask != 0
      invariant state.Some? && state.value.taskId in f && state.value == ToRow(f[state.value.taskId])
      invariant depth + f[state.value.taskId].depth == f[row.taskId].depth
      decreases state.value.taskId
    {
      depth := depth + 1;
      var parent := state.value.parentTask;
      assert f[state.value.taskId].parent == Some(parent) && parent in f;
      state := if parent in taskMap then Some(taskMap[parent]) else None;
    }
  }

  /** The deeper row moves to its parent, both do at equal depth. */
  method RowClimb(ghost f: Forest, taskMap: map<nat, Row>, x: Row, y: Row) returns (x': Row, y': Row)
    requires WellFormed(f) && RowMap(f, taskMap)
    requires RowOf(f, x) && RowOf(f, y)
    requires f[x.taskId].depth >= f[y.taskId].depth ==> f[x.taskId].parent.Some?
    requires f[y.taskId].depth >= f[x.taskId].depth ==> f[y.taskId].parent.Some?
    ensures x'.taskId == ClimbA(f, x.taskId, y.taskId) && y'.taskId == ClimbA(f, y.taskId, x.taskId)
    ensures RowOf(f, x') && RowOf(f, y')
  {
    var depthX := RowDepth(f, taskMap, x);
    var depthY := RowDepth(f, taskMap, y);
    x', y' := x, y;
    if depthX >= depthY {
      assert f[x.taskId].parent.value in f;
      x' := taskMap[x.parentTask];
    }
    if depthY >= depthX {
      assert f[y.taskId].parent.value in f;
      y' := taskMap[y.parentTask];
    }
  }

  lemma {:induction false} RowParents(f: Forest, x: nat, y: nat, b: nat)
    requires WellFormed(f) && x in f && y in f && b in f
    ensures ToRow(f[x]).parentTask == ToRow(f[y]).parentTask <==> f[x].parent == f[y].parent
    ensures ToRow(f[x]).parentTask == b <==> f[x].parent == Some(b)
  {
  }

  ghost predicate RowOf(f: Forest, r: Row) {
    r.taskId in f && r == ToRow(f[r.taskId])
  }

  /** What the row comparator relies on in one round: the comparison with the original tasks decides,
      or climbing goes on. */
  lemma {:induction false} RowRound(f: Forest, a: nat, b: nat, x: Row, y: Row)
    requires WellFormed(f) && RowOf(f, x) && RowOf(f, y) && Climbing(f, a, b, x.taskId, y.taskId)
    ensures x.parentTask == b ==> !Before(f, a, b)
    ensures y.parentTask == a ==> Before(f, a, b)
    ensures x.parentTask != b && y.parentTask != a ==> CanClimb(f, a, b, x.taskId, y.taskId)
  {
    RowParents(f, x.taskId, x.taskId, b);
    RowParents(f, y.taskId, y.taskId, a);
    ParentDecides(f, a, b, x.taskId, y.taskId);
    OriginalIsCurrent(f, a, b, x.taskId, y.taskId);
    if x.parentTask != b && y.parentTask != a {
      ClimbStep(f, a, b, x.taskId, y.taskId);
    }
  }

  /** The comparator over persisted rows. It compares the parent of the climbing row with the task
      originally asked for, and still decides like the live one. */
  method RowLess(ghost f: Forest, taskMap: map<nat, Row>, a: nat, b: nat) returns (less: bool)
    requires WellFormed(f) && RowMap(f, taskMap) && a in f && b in f
    ensures less <==> Before(f, a, b)
  {
    if a !in taskMap || b !in taskMap {
      return false;
    }
    var x, y := taskMap[a], taskMap[b];
    RowParents(f, a, b, a);
    if x.parentTask == y.parentTask {
      BeforeStrictTotal(f, a, b, b);
      if a != b { SiblingsDecide(f, a, b, a, b); }
      return x.taskId < y.taskId;
    }
    while true
      invariant RowOf(f, x) && RowOf(f, y)
      invariant Climbing(f, a, b, x.taskId, y.taskId)
      decreases f[x.taskId].depth + f[y.taskId].depth
    {
      RowRound(f, a, b, x, y);
      if x.parentTask == b {
        return false;
      }
      if y.parentTask == a {
        return true;
      }
      x, y := RowClimb(f, taskMap, x, y);
      RowParents(f, x.taskId, y.taskId, a);
      if x.parentTask == y.parentTask {
        return x.taskId < y.taskId;
      }
    }
  }

  /** Comparing with the original task or with the climbing one makes no difference. */
  lemma {:induction false} OriginalIsCurrent(f: Forest, a: nat, b: nat, x: nat, y: nat)
    requires WellFormed(f) && Climbing(f, a, b, x, y)
    ensures f[x].parent == Some(b) <==> f[x].parent == Some(y)
    ensures f[y].parent == Some(a) <==> f[y].parent == Some(x)
  {
    ParentDecides(f, a, b, x, y);
    assert |Path(f, x)| <= |Path(f, a)| && |Path(f, y)| <= |Path(f, b)|;
  }

  // ----- sorting -----

  lemma {:induction false} InsertSorted(f: Forest, s: seq<nat>, k: nat, x: nat)
    requires WellFormed(f) && Sorted(f, s) && x in f && k <= |s|
    requires forall i :: 0 <= i < k ==> Before(f, s[i], x)
    requires k < |s| ==> !Before(f, s[k], x) && s[k] != x
    ensures Sorted(f, Insert(s, k, x))
  {
    var rel := Order(f);
    forall i | k <= i < |s| ensures rel(x, s[i]) {
      BeforeStrictTotal(f, x, s[k], s[i]);
      if i > k { assert rel(s[k], s[i]); }
    }
    InsertSortedBy(rel, s, k, x);
  }

  lemma {:induction false} InsertElements(s: seq<nat>, k: nat, x: nat, list: seq<nat>)
    requires k <= |s| && forall i :: i in s <==> i in list
    ensures forall i :: i in Insert(s, k, x) <==> i in list + [x]
  {
    assert s == s[..k] + s[k..];
  }

  ghost predicate SortedList(f: Forest, list: seq<nat>, r: seq<nat>)
    requires WellFormed(f)
  {
    Sorted(f, r) && forall i :: i in r <==> i in list
  }

  lemma {:induction false} InsertNext(f: Forest, list: seq<nat>, n: nat, r: seq<nat>, k: nat)
    requires WellFormed(f) && Distinct(list) && n < |list| && list[n] in f && k <= |r| && SortedList(f, list[..n], r)
    requires forall i :: 0 <= i < k ==> Before(f, r[i], list[n])
    requires k < |r| ==> !Before(f, r[k], list[n])
    ensures SortedList(f, list[..n + 1], Insert(r, k, list[n]))
  {
    if k < |r| {
      assert r[k] in list[..n];
    }
    InsertSorted(f, r, k, list[n]);
    InsertElements(r, k, list[n], list[..n]);
    assert list[..n + 1] == list[..n] + [list[n]];
  }

  /** The list sorted with the live comparator; insertion stands in for the library sort. */
  method SortTaskList(f: Forest, list: seq<nat>) returns (r: seq<nat>)
    requires WellFormed(f) && Distinct(list) && forall i :: 0 <= i < |list| ==> list[i] in f
    ensures SortedList(f, list, r)
  {
    r := [];
    for n := 0 to |list|
      invariant SortedList(f, list[..n], r)
    {
      var k := 0;
      while k < |r|
        invariant k <= |r|
        invariant forall i :: 0 <= i < k ==> Before(f, r[i], list[n])
      {
        var less := TaskLess(f, r[k], list[n]);
        if !less { break; }
        k := k + 1;
      }
      InsertNext(f, list, n, r, k);
      r := Insert(r, k, list[n]);
    }
    assert list[..|list|] == list;
  }

  /** The list sorted with the comparator over rows. */
  method SortRowList(ghost f: Forest, taskMap: map<nat, Row>, list: seq<nat>) returns (r: seq<nat>)
    requires WellFormed(f) && RowMap(f, taskMap) && Distinct(list) && forall i :: 0 <= i < |list| ==> list[i] in f
    ensures SortedList(f, list, r)
  {
    r := [];
    for n := 0 to |list|
      invariant SortedList(f, list[..n], r)
    {
      var k := 0;
      while k < |r|
        invariant k <= |r|
        invariant forall i :: 0 <= i < k ==> Before(f, r[i], list[n])
      {
        var less := RowLess(f, taskMap, r[k], list[n]);
        if !less { break; }
        k := k + 1;
      }
      InsertNext(f, list, n, r, k);
      r := Insert(r, k, list[n]);
    }
    assert list[..|list|] == list;
  }

  /** The task list of a finished run, read from its rows: the same order as the live scheduler's. */
  method GetPersistedTasks(ghost f: Forest, ghost bound: nat, rows: seq<Row>, cleanup: bool) returns (r: seq<nat>)
    requires WellFormed(f) && Inherits(f) && Bounded(f, bound) && Persisted(f, rows)
    ensures r == Preorder(f, bound, cleanup)
  {
    var ids := IdsOfKind(f, rows, cleanup);
    assert forall i :: 0 <= i < |ids| ==> ids[i] in ids;
    var taskMap := BuildTaskMap(f, rows);
    r := SortRowList(f, taskMap, ids);
    SortedKindIsPreorder(f, bound, cleanup, r);
  }

  method IdsOfKind(ghost f: Forest, rows: seq<Row>, cleanup: bool) returns (ids: seq<nat>)
    requires Persisted(f, rows)
    ensures Distinct(ids) && forall i :: i in ids <==> i in Kind(f, cleanup)
  {
    ids := [];
    for n := 0 to |rows|
      invariant forall i :: i in ids <==> exists k :: 0 <= k < n && rows[k].taskId == i && rows[k].isCleanup == cleanup
      invariant Distinct(ids)
    {
      if rows[n].isCleanup == cleanup {
        AppendDistinct(ids, rows[n].taskId);
        ids := ids + [rows[n].taskId];
      }
    }
    RowIdsOfKind(f, rows, cleanup, ids);
  }

  lemma {:induction false} RowIdsOfKind(f: Forest, rows: seq<Row>, cleanup: bool, ids: seq<nat>)
    requires Persisted(f, rows)
    requires forall i :: i in ids <==>
             exists k :: 0 <= k < |rows| && rows[k].taskId == i && rows[k].isCleanup == cleanup
    ensures forall i :: i in ids <==> i in Kind(f, cleanup)
  {
  }

  lemma {:induction false} AddTask(f: Forest, g: Forest, n: nat)
    requires WellFormed(f) && Inherits(f) && n > 0 && (forall i :: i in f ==> i < n)
    requires n in g && g == f[n := g[n]] && g[n].index == n
    requires g[n].parent == None ==> g[n].depth == 0
    requires g[n].parent.Some? ==>
             var p := g[n].parent.value; p in f && f[p].isCleanup == g[n].isCleanup && g[n].depth == f[p].depth + 1
    ensures WellFormed(g) && Inherits(g) && Bounded(g, n)
  {
    forall i, p | i in g && g[i].parent == Some(p)
      ensures p in g && p < i && g[i].depth == g[p].depth + 1 && g[i].isCleanup == g[p].isCleanup
    {
      assert p in f;
      assert i != n ==> g[i] == f[i];
    }
  }

  lemma {:induction false} AddToKind(f: Forest, g: Forest, n: nat, c: bool)
    requires n !in f && n in g && g == f[n := g[n]]
    ensures forall i :: i in Kind(g, c) <==> i in Kind(f, c) || (i == n && g[n].isCleanup == c)
  {
  }

  class TaskScheduler {
    var taskCount: nat
    var taskStateMap: Forest
    var allTasks: seq<nat>
    var allCleanupTasks: seq<nat>

    ghost predicate Valid()
      reads this
    {
      && WellFormed(taskStateMap) && Inherits(taskStateMap) && Bounded(taskStateMap, taskCount)
      && Distinct(allTasks) && (forall i :: i in allTasks <==> i in Kind(taskStateMap, false))
      && Distinct(allCleanupTasks) && (forall i :: i in allCleanupTasks <==> i in Kind(taskStateMap, true))
    }

    constructor ()
      ensures Valid() && taskStateMap == map[] && taskCount == 0
    {
      taskCount, taskStateMap, allTasks, allCleanupTasks := 0, map[], [], [];
    }

    /** Creates a task. A child takes over the kind of its parent. An unknown task name fails before
        anything changes; a failing database insert is reported, the task is registered all the same. */
    method NewTaskState(parent: Option<nat>, isCleanup: bool, nameKnown: bool, stored: bool) returns (r: Option<nat>)
      requires Valid()
      requires parent.Some? ==> parent.value in taskStateMap && taskStateMap[parent.value].isCleanup == isCleanup
      modifies this
      ensures Valid()
      ensures r.Some? <==> nameKnown && stored
      ensures r.Some? ==> r.value == taskCount
      ensures !nameKnown ==> taskStateMap == old(taskStateMap) && taskCount == old(taskCount)
      ensures nameKnown ==>
                && taskCount == old(taskCount) + 1 && taskCount !in old(taskStateMap)
                && var depth := if parent == None then 0 else old(taskStateMap)[parent.value].depth + 1;
                   taskStateMap == old(taskStateMap)[taskCount := Task(taskCount, parent, depth, isCleanup)]
    {
      if !nameKnown {
        return None;
      }
      taskCount := taskCount + 1;
      var depth := 0;
      if parent.Some? {
        depth := taskStateMap[parent.value].depth + 1;
      }
      ghost var f := taskStateMap;
      taskStateMap := taskStateMap[taskCount := Task(taskCount, parent, depth, isCleanup)];
      AddTask(f, taskStateMap, taskCount);
      AddToKind(f, taskStateMap, taskCount, true);
      AddToKind(f, taskStateMap, taskCount, false);
      AppendDistinct(allCleanupTasks, taskCount);
      AppendDistinct(allTasks, taskCount);
      if isCleanup {
        allCleanupTasks := allCleanupTasks + [taskCount];
      } else {
        allTasks := allTasks + [taskCount];
      }
      return if stored then Some(taskCount) else None;
    }

    method GetAllTasks() returns (r: seq<nat>)
      requires Valid()
      ensures r == Preorder(taskStateMap, taskCount, false)
    {
      assert forall i :: 0 <= i < |allTasks| ==> allTasks[i] in allTasks;
      r := SortTaskList(taskStateMap, allTasks);
      SortedKindIsPreorder(taskStateMap, taskCount, false, r);
    }

    method GetAllCleanupTasks() returns (r: seq<nat>)
      requires Valid()
      ensures r == Preorder(taskStateMap, taskCount, true)
    {
      assert forall i :: 0 <= i < |allCleanupTasks| ==> allCleanupTasks[i] in allCleanupTasks;
      r := SortTaskList(taskStateMap, allCleanupTasks);
      SortedKindIsPreorder(taskStateMap, taskCount, true, r);
    }
  }
}
