/**
Scopes as objects: setting variables, nesting scopes, creating and assigning sub-scopes. Asking a scope
for a sub-scope also creates it along the chain of parents, so that its parent chain mirrors the chain
of the scope. Sub-scopes can also be assigned; the mirroring is about the names that were not.
*/
module VariableScopes {
  import opened BlockTree
  import opened Variables

  /** `after` is `before` with at most an entry for `name` added. */
  ghost predicate Grows(before: map<string, ScopeRef>, after: map<string, ScopeRef>, name: string) {
    after == before || (name !in before && name in after && after == before[name := after[name]])
  }

  class ScopeRef {
    const parentScope: ScopeRef?
    ghost const depth: nat
    var varsMap: map<string, Value>
    var defaultsMap: map<string, Value>
    var subScopes: map<string, ScopeRef>
    ghost var setNames: set<string>    // names whose sub-scope was set by `SetSubScope`

    constructor (parent: ScopeRef?)
      ensures parentScope == parent && depth == (if parent == null then 0 else parent.depth + 1)
      ensures varsMap == map[] && defaultsMap == map[] && subScopes == map[] && setNames == {}
    {
      parentScope := parent;
      depth := if parent == null then 0 else parent.depth + 1;
      varsMap, defaultsMap, subScopes, setNames := map[], map[], map[], {};
    }

    /** Parents were created before their children; the depth counts them. */
    ghost predicate Rooted()
      decreases depth
    {
      && (parentScope == null ==> depth == 0)
      && (parentScope != null ==> depth == parentScope.depth + 1 && parentScope.Rooted())
    }

    /** The scope and all its parents. */
    ghost function Chain(): (c: set<ScopeRef>)
      requires Rooted()
      ensures this in c && forall o :: o in c ==> o.depth <= depth
      decreases depth
    {
      {this} + if parentScope == null then {} else parentScope.Chain()
    }

    /** The sub-scope of this name has as parent the sub-scope of the same name of the parent scope. */
    ghost predicate MirrorsName(n: string)
      requires n in subScopes
      reads this, parentScope
    {
      if parentScope == null then subScopes[n].parentScope == null
      else n in parentScope.subScopes && subScopes[n].parentScope == parentScope.subScopes[n]
    }

    /** So it is for every name assigned neither here nor in the parent scope. */
    ghost predicate Mirrors()
      reads this, parentScope
    {
      forall n :: n in subScopes && n !in setNames && (parentScope != null ==> n !in parentScope.setNames)
        ==> MirrorsName(n)
    }

    /** Parent and sub-scopes belong to the set, the depth fits, and the sub-scopes mirror the parent's. */
    ghost predicate FitsIn(all: set<ScopeRef>)
      reads all
    {
      && this in all && Rooted() && (parentScope != null ==> parentScope in all)
      && (forall n :: n in subScopes ==> subScopes[n] in all)
      && Mirrors()
    }

    method SetVar(name: string, value: Value)
      modifies `varsMap
      ensures varsMap == old(varsMap)[name := value]
    {
      varsMap := varsMap[name := value];
    }

    method SetDefaultVar(name: string, value: Value)
      modifies `defaultsMap
      ensures defaultsMap == old(defaultsMap)[name := value]
    {
      defaultsMap := defaultsMap[name := value];
    }

    /** A child scope. */
    method NewScope(ghost all: set<ScopeRef>) returns (s: ScopeRef, ghost all': set<ScopeRef>)
      requires this in all && Closed(all)
      ensures fresh(s) && s.parentScope == this && s.depth == depth + 1
      ensures s.varsMap == map[] && s.defaultsMap == map[] && s.subScopes == map[] && s.setNames == {}
      ensures all' == all + {s} && Closed(all')
    {
      s := new ScopeRef(this);
      all' := all + {s};
      assert FitsIn(all);
      forall o | o in all ensures o.FitsIn(all') {
        assert old(o.FitsIn(all));
      }
    }

    /** Assigns a sub-scope, whatever was there before and whatever its parents are. */
    method SetSubScope(name: string, subScope: ScopeRef, ghost all: set<ScopeRef>)
      requires this in all && subScope in all && Closed(all)
      modifies `subScopes, `setNames
      ensures subScopes == old(subScopes)[name := subScope] && setNames == old(setNames) + {name}
      ensures Closed(all)
    {
      subScopes := subScopes[name := subScope];
      setNames := setNames + {name};
      forall o | o in all ensures o.FitsIn(all) {
        assert old(o.FitsIn(all));
        forall n | n in o.subScopes && n !in o.setNames && (o.parentScope != null ==> n !in o.parentScope.setNames)
          ensures o.MirrorsName(n)
        {
          assert old(o.MirrorsName(n));
        }
      }
    }

    /** Returns the sub-scope, creating it on this scope and on every parent that lacks it. Nothing that
        existed is replaced; the created scopes fit in with all others, so that the call can be repeated
        on any of them. */
    method GetSubScope(name: string, ghost all: set<ScopeRef>) returns (sub: ScopeRef, ghost all': set<ScopeRef>)
      requires this in all && Closed(all)
      modifies Chain()`subScopes
      ensures Closed(all') && all <= all' && fresh(all' - all)
      ensures sub in all' && name in subScopes && subScopes[name] == sub
      ensures name !in old(subScopes) ==> sub in all' - all
      ensures forall o :: o in all ==> Grows(old(o.subScopes), o.subScopes, name)
      decreases depth
    {
      if parentScope == null {
        sub, all' := AttachSub(name, null, all);
      } else {
        assert FitsIn(all) && this !in parentScope.Chain();
        ghost var known;
        var parentSubScope;
        parentSubScope, known := parentScope.GetSubScope(name, all);
        assert subScopes == old(subScopes) && this in known && parentSubScope in known;
        label parentDone:
        sub, all' := AttachSub(name, parentSubScope, known);
        forall o | o in all ensures Grows(old(o.subScopes), o.subScopes, name) {
          assert o != this ==> o.subScopes == old@parentDone(o.subScopes);
        }
      }
    }

    /** The part of the method under the mutex of this scope. */
    method AttachSub(name: string, parentSub: ScopeRef?, ghost all: set<ScopeRef>)
      returns (sub: ScopeRef, ghost all': set<ScopeRef>)
      requires this in all && Closed(all)
      requires parentScope == null ==> parentSub == null
      requires parentScope != null ==> name in parentScope.subScopes && parentScope.subScopes[name] == parentSub
      modifies `subScopes
      ensures Closed(all') && all <= all' && fresh(all' - all)
      ensures sub in all' && name in subScopes && subScopes[name] == sub
      ensures name !in old(subScopes) ==> sub in all' - all
      ensures Grows(old(subScopes), subScopes, name)
    {
      if name in subScopes {
        sub, all' := subScopes[name], all;
      } else {
        assert FitsIn(all) && (parentScope != null ==> parentScope.FitsIn(all));
        assert parentSub != null ==> parentSub.FitsIn(all);
        sub := new ScopeRef(parentSub);
        subScopes := subScopes[name := sub];
        all' := all + {sub};
        forall o | o in all ensures o.FitsIn(all') {
          assert old(o.FitsIn(all));
          if o == this {
            assert o.Mirrors();
          } else {
            assert o.subScopes == old(o.subScopes) && old(o.Mirrors());
            assert o.Mirrors();
          }
        }
        assert sub.FitsIn(all');
      }
    }
  }

  /** A set of scopes that fit together. */
  ghost predicate Closed(all: set<ScopeRef>)
    reads all
  {
    forall o :: o in all ==> o.FitsIn(all)
  }

  /** The `k`-th scope up the chain. */
  ghost function Up(s: ScopeRef, k: nat): (r: ScopeRef)
    requires s.Rooted() && k <= s.depth
    ensures r.Rooted() && r in s.Chain()
    decreases k
  {
    if k == 0 then s else Up(s.parentScope, k - 1)
  }

  lemma {:induction false} ChainCloses(all: set<ScopeRef>, s: ScopeRef)
    requires Closed(all) && s in all
    ensures s.Rooted() && s.Chain() <= all
    decreases s.depth
  {
    assert s.FitsIn(all);
    if s.parentScope != null {
      ChainCloses(all, s.parentScope);
    }
  }

  /** No scope of the chain had this sub-scope assigned. */
  ghost predicate NeverSet(s: ScopeRef, name: string)
    requires s.Rooted()
    reads s.Chain()
  {
    forall o :: o in s.Chain() ==> name !in o.setNames
  }

  /** When the sub-scopes of a name were made by `GetSubScope` only, the parent chain of a sub-scope is the
      chain of the sub-scopes of that name, all the way up. */
  lemma {:induction false} ChainMirrored(all: set<ScopeRef>, s: ScopeRef, name: string, k: nat)
    requires Closed(all) && s in all && name in s.subScopes && k <= s.depth && s.Rooted() && NeverSet(s, name)
    ensures s.subScopes[name].Rooted() && s.subScopes[name].depth == s.depth
    ensures name in Up(s, k).subScopes && Up(s.subScopes[name], k) == Up(s, k).subScopes[name]
    decreases s.depth
  {
    assert s.FitsIn(all) && s.subScopes[name].FitsIn(all);
    assert s in s.Chain();
    if s.parentScope == null {
      assert s.MirrorsName(name);
    } else {
      assert s.parentScope in s.Chain();
      assert s.MirrorsName(name);
      ChainMirrored(all, s.parentScope, name, if k > 0 then k - 1 else 0);
    }
  }

  ghost predicate IsSub(s: ScopeRef, name: string, sub: ScopeRef)
    reads s
  {
    name in s.subScopes && s.subScopes[name] == sub
  }

  /** Every sub-scope of before is still there. */
  ghost predicate Keeps(before: map<string, ScopeRef>, after: map<string, ScopeRef>) {
    forall n :: n in before ==> n in after && after[n] == before[n]
  }

  lemma {:induction false} KeepsOn(a: map<string, ScopeRef>, b: map<string, ScopeRef>, c: map<string, ScopeRef>,
                                   n: string)
    requires Grows(a, b, n) && Keeps(b, c)
    ensures Keeps(a, c)
  {
  }

  /** A path of sub-scopes below any scope: each call works on the scope that the call before it returned,
      and no call undoes an earlier one. */
  method NestedScopes(start: ScopeRef, names: seq<string>, ghost all: set<ScopeRef>)
    returns (scopes: seq<ScopeRef>, ghost all': set<ScopeRef>)
    requires start in all && Closed(all)
    modifies all`subScopes
    ensures Closed(all') && all <= all' && fresh(all' - all)
    ensures |scopes| == |names| + 1 && scopes[0] == start
    ensures forall i :: 0 <= i < |names| ==> IsSub(scopes[i], names[i], scopes[i + 1])
    ensures forall o :: o in all ==> Keeps(old(o.subScopes), o.subScopes)
    decreases |names|
  {
    if names == [] {
      return [start], all;
    }
    ChainCloses(all, start);
    ghost var known;
    var sub, rest;
    sub, known := start.GetSubScope(names[0], all);
    label first:
    rest, all' := NestedScopes(sub, names[1..], known);
    scopes := [start] + rest;
    assert start in known;
    assert IsSub(start, names[0], sub);
    forall o | o in all ensures Keeps(old(o.subScopes), o.subScopes) {
      KeepsOn(old(o.subScopes), old@first(o.subScopes), o.subScopes, names[0]);
    }
    forall i | 0 <= i < |names| ensures IsSub(scopes[i], names[i], scopes[i + 1]) {
      if i > 0 {
        assert IsSub(rest[i - 1], names[1..][i - 1], rest[i]);
      }
    }
  }

  const TASKS := "tasks"

  /** A new task with an id: its status variables, with its outputs in them, become a sub-scope of the
      tasks scope. They have no parent, so under this name the tasks scope of a child scope does not
      mirror the one above. */
  method RegisterTask(variables: ScopeRef, id: string, ghost all: set<ScopeRef>)
    returns (tasksScope: ScopeRef, status: ScopeRef, ghost all': set<ScopeRef>)
    requires variables in all && Closed(all)
    modifies all`subScopes, all`setNames
    ensures Closed(all') && all <= all' && fresh(all' - all)
    ensures tasksScope in all' && status in all' - all && IsSub(tasksScope, id, status)
    ensures tasksScope.MirrorsName(id) <==> tasksScope.parentScope == null
    ensures if TASKS in old(variables.subScopes) then tasksScope == old(variables.subScopes[TASKS])
            else tasksScope !in all
    ensures tasksScope != variables || id != TASKS ==> IsSub(variables, TASKS, tasksScope)
    ensures forall o :: o in all && o != tasksScope ==>
              o.setNames == old(o.setNames) && Grows(old(o.subScopes), o.subScopes, TASKS)
  {
    ghost var more;
    status, more := NewStatus(all);
    tasksScope, all' := PlaceStatus(variables, id, status, more);
  }

  method PlaceStatus(variables: ScopeRef, id: string, status: ScopeRef, ghost all: set<ScopeRef>)
    returns (tasksScope: ScopeRef, ghost all': set<ScopeRef>)
    requires variables in all && status in all && Closed(all)
    modifies all`subScopes, all`setNames
    ensures Closed(all') && all <= all' && fresh(all' - all)
    ensures tasksScope in all' && IsSub(tasksScope, id, status)
    ensures if TASKS in old(variables.subScopes) then tasksScope == old(variables.subScopes[TASKS])
            else tasksScope !in all
    ensures tasksScope != variables || id != TASKS ==> IsSub(variables, TASKS, tasksScope)
    ensures forall o :: o in all && o != tasksScope ==>
              o.setNames == old(o.setNames) && Grows(old(o.subScopes), o.subScopes, TASKS)
  {
    ChainCloses(all, variables);
    tasksScope, all' := variables.GetSubScope(TASKS, all);
    tasksScope.SetSubScope(id, status, all');
  }

  method NewStatus(ghost all: set<ScopeRef>) returns (status: ScopeRef, ghost all': set<ScopeRef>)
    requires Closed(all)
    ensures Closed(all') && all <= all' && fresh(all' - all) && status in all' - all
    ensures status.parentScope == null && "outputs" in status.subScopes
  {
    var outputs := new ScopeRef(null);
    status := new ScopeRef(null);
    all' := all + {outputs, status};
    forall o | o in all ensures o.FitsIn(all') {
      assert old(o.FitsIn(all));
    }
    status.SetSubScope("outputs", outputs, all');
  }

  /** A scope whose tasks scope was made by `GetSubScope`, as on all its parents. */
  ghost predicate HasTasks(s: ScopeRef, tasks: ScopeRef, all: set<ScopeRef>)
    reads all
  {
    && s in all && s.Rooted() && s.Chain() <= all
    && IsSub(s, TASKS, tasks) && tasks !in s.Chain() && NeverSet(s, TASKS)
  }

  /** Registering a task, whatever its id, keeps it so. */
  method RegisterOne(s: ScopeRef, tasks: ScopeRef, id: string, ghost all: set<ScopeRef>)
    returns (ghost all': set<ScopeRef>)
    requires Closed(all) && HasTasks(s, tasks, all)
    modifies all`subScopes, all`setNames
    ensures Closed(all') && all <= all' && fresh(all' - all) && HasTasks(s, tasks, all')
    ensures id in tasks.subScopes
  {
    var tasksScope, status;
    tasksScope, status, all' := RegisterTask(s, id, all);
    assert tasksScope == tasks && s != tasks;
  }

  method RegisterAll(s: ScopeRef, tasks: ScopeRef, ids: seq<string>, ghost all: set<ScopeRef>)
    returns (ghost all': set<ScopeRef>)
    requires Closed(all) && HasTasks(s, tasks, all)
    modifies all`subScopes, all`setNames
    ensures Closed(all') && all <= all' && fresh(all' - all) && HasTasks(s, tasks, all')
  {
    all' := all;
    for j := 0 to |ids|
      invariant Closed(all') && all <= all' && fresh(all' - all) && HasTasks(s, tasks, all')
    {
      all' := RegisterOne(s, tasks, ids[j], all');
    }
  }

  method OpenRoot() returns (s: ScopeRef, tasks: ScopeRef, ghost all: set<ScopeRef>)
    ensures Closed(all) && fresh(all) && s.depth == 0 && HasTasks(s, tasks, all)
  {
    s := new ScopeRef(null);
    all := {s};
    assert s.Chain() == all;
    tasks, all := s.GetSubScope(TASKS, all);
  }

  method OpenChild(s: ScopeRef, tasks: ScopeRef, ghost all: set<ScopeRef>)
    returns (child: ScopeRef, childTasks: ScopeRef, ghost all': set<ScopeRef>)
    requires Closed(all) && HasTasks(s, tasks, all)
    modifies s.Chain()`subScopes
    ensures Closed(all') && all <= all' && fresh(all' - all)
    ensures child.parentScope == s && child.depth == s.depth + 1 && HasTasks(child, childTasks, all')
  {
    child, all' := s.NewScope(all);
    ChainCloses(all', child);
    ghost var known := all';
    childTasks, all' := child.GetSubScope(TASKS, all');
    assert childTasks !in known && child.Chain() <= known;
  }

  /** Any number of tasks registered in a scope, then a scope below it. */
  method OpenLevel(s: ScopeRef, tasks: ScopeRef, ids: seq<string>, ghost all: set<ScopeRef>)
    returns (child: ScopeRef, childTasks: ScopeRef, ghost all': set<ScopeRef>)
    requires Closed(all) && HasTasks(s, tasks, all)
    modifies all`subScopes, all`setNames
    ensures Closed(all') && all <= all' && fresh(all' - all)
    ensures child.parentScope == s && child.depth == s.depth + 1 && HasTasks(child, childTasks, all')
  {
    ghost var known := RegisterAll(s, tasks, ids, all);
    child, childTasks, all' := OpenChild(s, tasks, known);
  }

  /** Nested scopes as tasks open them below `s`, with tasks of any ids registered on the way. */
  method OpenLevels(s: ScopeRef, tasks: ScopeRef, ids: seq<seq<string>>, ghost all: set<ScopeRef>)
    returns (deepest: ScopeRef, itsTasks: ScopeRef, ghost all': set<ScopeRef>)
    requires Closed(all) && HasTasks(s, tasks, all)
    modifies all`subScopes, all`setNames
    ensures Closed(all') && all <= all' && fresh(all' - all)
    ensures deepest.depth == s.depth + |ids| && HasTasks(deepest, itsTasks, all')
    decreases |ids|
  {
    if ids == [] {
      return s, tasks, all;
    }
    ghost var known;
    var child, childTasks;
    child, childTasks, known := OpenLevel(s, tasks, ids[0], all);
    deepest, itsTasks, all' := OpenLevels(child, childTasks, ids[1..], known);
  }

  /** The same below a new root: every tasks scope lies below the tasks scope of the scope above, all the
      way up. */
  method TaskScopes(ids: seq<seq<string>>) returns (s: ScopeRef, tasks: ScopeRef, ghost all: set<ScopeRef>)
    ensures Closed(all) && s in all && s.Rooted() && s.depth == |ids|
    ensures tasks.Rooted() && tasks.depth == s.depth
    ensures forall k :: 0 <= k <= s.depth ==> IsSub(Up(s, k), TASKS, Up(tasks, k))
  {
    s, tasks, all := OpenRoot();
    s, tasks, all := OpenLevels(s, tasks, ids, all);
    TasksMirrored(all, s, tasks);
  }

  lemma {:induction false} TasksMirrored(all: set<ScopeRef>, s: ScopeRef, tasks: ScopeRef)
    requires Closed(all) && HasTasks(s, tasks, all)
    ensures tasks.Rooted() && tasks.depth == s.depth
    ensures forall k :: 0 <= k <= s.depth ==> IsSub(Up(s, k), TASKS, Up(tasks, k))
  {
    ChainMirrored(all, s, TASKS, 0);
    forall k: nat | k <= s.depth ensures IsSub(Up(s, k), TASKS, Up(tasks, k)) {
      ChainMirrored(all, s, TASKS, k);
    }
  }
}
