/**
The forest of tasks of one test run and its display order: the depth-first preorder, which is the
lexicographic order of the index paths from the root tasks.
*/
module TaskForest {
  import opened BlockTree
  import opened Sorting

  /** A task knows its parent task, if any, and its depth below the root. */
  datatype Task = Task(index: nat, parent: Option<nat>, depth: nat, isCleanup: bool)

  type Forest = map<nat, Task>

  /** What creating tasks one by one guarantees: a child is created after its parent. */
  ghost predicate WellFormed(f: Forest) {
    && (forall i :: i in f ==> i > 0 && f[i].index == i && (f[i].parent == None <==> f[i].depth == 0))
    && (forall i, p :: i in f && f[i].parent == Some(p) ==> p in f && p < i && f[i].depth == f[p].depth + 1)
  }

  /** Indexes from the root task down to task `i`. */
  ghost function Path(f: Forest, i: nat): (p: seq<nat>)
    requires WellFormed(f) && i in f
    ensures |p| == f[i].depth + 1 && p[|p| - 1] == i
    decreases i
  {
    match f[i].parent
    case None => [i]
    case Some(q) => Path(f, q) + [i]
  }

  ghost function PathTo(f: Forest, p: Option<nat>): seq<nat>
    requires WellFormed(f) && (p.Some? ==> p.value in f)
  {
    if p == None then [] else Path(f, p.value)
  }

  // ----- lexicographic order of paths -----

  ghost predicate LexLess(p: seq<nat>, q: seq<nat>) {
    q != [] && (p == [] || p[0] < q[0] || (p[0] == q[0] && LexLess(p[1..], q[1..])))
  }

  lemma {:induction false} LexCancel(c: seq<nat>, p: seq<nat>, q: seq<nat>)
    ensures LexLess(c + p, c + q) <==> LexLess(p, q)
    decreases |c|
  {
    if c == [] {
      assert c + p == p && c + q == q;
    } else {
      assert (c + p)[1..] == c[1..] + p && (c + q)[1..] == c[1..] + q;
      LexCancel(c[1..], p, q);
    }
  }

  lemma {:induction false} LexTransitive(p: seq<nat>, q: seq<nat>, r: seq<nat>)
    requires LexLess(p, q) && LexLess(q, r)
    ensures LexLess(p, r)
    decreases |p|
  {
    if p != [] && p[0] == q[0] == r[0] {
      LexTransitive(p[1..], q[1..], r[1..]);
    }
  }

  lemma {:induction false} LexIrreflexive(p: seq<nat>)
    ensures !LexLess(p, p)
    decreases |p|
  {
    if p != [] {
      LexIrreflexive(p[1..]);
    }
  }

  lemma {:induction false} LexTotal(p: seq<nat>, q: seq<nat>)
    ensures LexLess(p, q) || LexLess(q, p) || p == q
    decreases |p|
  {
    if p != [] && q != [] && p[0] == q[0] {
      LexTotal(p[1..], q[1..]);
      assert p == [p[0]] + p[1..] && q == [q[0]] + q[1..];
    }
  }

  /** Between two extensions of a path there are only extensions of it. */
  lemma {:induction false} LexBetween(c: seq<nat>, p: seq<nat>, q: seq<nat>, r: seq<nat>)
    requires c <= p && c <= r && LexLess(p, q) && LexLess(q, r)
    ensures c <= q
    decreases |c|
  {
    if c != [] {
      assert p[0] == r[0] == c[0];
      LexBetween(c[1..], p[1..], q[1..], r[1..]);
      assert q == [q[0]] + q[1..];
    }
  }

  // ----- the order on tasks -----

  ghost predicate Before(f: Forest, a: nat, b: nat)
    requires WellFormed(f) && a in f && b in f
  {
    LexLess(Path(f, a), Path(f, b))
  }

  lemma {:induction false} PathInjective(f: Forest, a: nat, b: nat)
    requires WellFormed(f) && a in f && b in f && Path(f, a) == Path(f, b)
    ensures a == b
  {
    assert Path(f, a)[|Path(f, a)| - 1] == a;
  }

  /** A strict total order on the tasks of the forest. */
  lemma {:induction false} BeforeStrictTotal(f: Forest, a: nat, b: nat, c: nat)
    requires WellFormed(f) && a in f && b in f && c in f
    ensures !Before(f, a, a)
    ensures Before(f, a, b) && Before(f, b, c) ==> Before(f, a, c)
    ensures a != b ==> Before(f, a, b) || Before(f, b, a)
    ensures Before(f, a, b) ==> !Before(f, b, a)
  {
    LexIrreflexive(Path(f, a));
    if Before(f, a, b) && Before(f, b, c) {
      LexTransitive(Path(f, a), Path(f, b), Path(f, c));
    }
    if a != b {
      LexTotal(Path(f, a), Path(f, b));
      if Path(f, a) == Path(f, b) { PathInjective(f, a, b); }
    }
    if Before(f, a, b) && Before(f, b, a) {
      LexTransitive(Path(f, a), Path(f, b), Path(f, a));
    }
  }

  /** `x` is `a` or an ancestor of it. */
  ghost predicate Above(f: Forest, x: nat, a: nat)
    requires WellFormed(f)
  {
    x in f && a in f && Path(f, x) <= Path(f, a)
  }

  lemma {:induction false} AboveParent(f: Forest, x: nat, a: nat)
    requires WellFormed(f) && Above(f, x, a) && f[x].parent.Some?
    ensures Above(f, f[x].parent.value, a)
  {
  }

  lemma {:induction false} PrefixRest(p: seq<nat>, c: seq<nat>)
    requires c <= p
    ensures p == c + p[|c|..]
  {
  }

  lemma {:induction false} LexDecide(c: seq<nat>, p: seq<nat>, q: seq<nat>, x: nat, y: nat)
    requires c + [x] <= p && c + [y] <= q && x != y
    ensures LexLess(p, q) <==> x < y
  {
    assert p[|c|] == (c + [x])[|c|] == x && q[|c|] == (c + [y])[|c|] == y;
    assert p[..|c|] == (c + [x])[..|c|] == c && q[..|c|] == (c + [y])[..|c|] == c;
    LexCancel(c, p[|c|..], q[|c|..]);
    assert p == c + p[|c|..] && q == c + q[|c|..];
  }

  /** Two siblings decide the order of everything below them. */
  lemma {:induction false} SiblingsDecide(f: Forest, a: nat, b: nat, x: nat, y: nat)
    requires WellFormed(f) && Above(f, x, a) && Above(f, y, b) && f[x].parent == f[y].parent && x != y
    ensures Before(f, a, b) <==> x < y
  {
    var c := PathTo(f, f[x].parent);
    assert Path(f, x) == c + [x] && Path(f, y) == c + [y];
    LexDecide(c, Path(f, a), Path(f, b), x, y);
  }

  /** A task comes before everything below it. */
  lemma {:induction false} AncestorFirst(f: Forest, x: nat, a: nat)
    requires WellFormed(f) && Above(f, x, a) && x != a
    ensures Before(f, x, a) && !Before(f, a, x)
  {
    var c, p := Path(f, x), Path(f, a);
    PrefixRest(p, c);
    if p == c {
      PathInjective(f, x, a);
    }
    LexCancel(c, [], p[|c|..]);
    assert c + [] == c;
    BeforeStrictTotal(f, x, a, a);
  }

  // ----- preorder -----

  /** Depth-first preorder of the subtrees below the children of `p` whose index is at least `lo`,
      children in index order. */
  ghost function Walk(f: Forest, bound: nat, p: Option<nat>, lo: nat): seq<nat>
    requires lo <= bound + 1
    decreases bound + 1 - lo
  {
    if lo > bound then []
    else if lo in f && f[lo].parent == p
    then [lo] + Walk(f, bound, Some(lo), lo + 1) + Walk(f, bound, p, lo + 1)
    else Walk(f, bound, p, lo + 1)
  }

  /** The path of `i` continues the path of `p` with a task whose index is at least `lo`. */
  ghost predicate Under(f: Forest, p: Option<nat>, lo: nat, i: nat)
    requires WellFormed(f) && (p.Some? ==> p.value in f)
  {
    var c := PathTo(f, p);
    i in f && c < Path(f, i) && Path(f, i)[|c|] >= lo
  }

  ghost predicate Sorted(f: Forest, s: seq<nat>)
    requires WellFormed(f)
  {
    (forall i :: 0 <= i < |s| ==> s[i] in f) && SortedBy(Order(f), s)
  }

  ghost function Order(f: Forest): (nat, nat) -> bool
    requires WellFormed(f)
  {
    (a, b) => a in f && b in f && Before(f, a, b)
  }

  ghost predicate Bounded(f: Forest, bound: nat) {
    forall i :: i in f ==> i <= bound
  }

  /** Each entry of a path is a task whose own path ends there, and its parent is the entry before. */
  lemma {:induction false} PathEntry(f: Forest, i: nat, k: nat)
    requires WellFormed(f) && i in f && k < |Path(f, i)|
    ensures var x := Path(f, i)[k];
            && x in f && Path(f, x) == Path(f, i)[..k + 1]
            && f[x].parent == if k == 0 then None else Some(Path(f, i)[k - 1])
    decreases i
  {
    var p := Path(f, i);
    if k == |p| - 1 {
      assert p[..k + 1] == p;
      if f[i].parent.Some? {
        assert p[..k] == Path(f, f[i].parent.value);
        assert p[k - 1] == Path(f, f[i].parent.value)[k - 1];
      }
    } else {
      var q := Path(f, f[i].parent.value);
      PathEntry(f, f[i].parent.value, k);
      assert q[..k + 1] == p[..k + 1] && q[k] == p[k];
    }
  }

  /** The child of `p` on the way down to `i`. */
  lemma {:induction false} ChildOnPath(f: Forest, p: Option<nat>, i: nat) returns (y: nat)
    requires WellFormed(f) && (p.Some? ==> p.value in f) && i in f && PathTo(f, p) < Path(f, i)
    ensures y == Path(f, i)[|PathTo(f, p)|] && y in f && f[y].parent == p && Above(f, y, i)
  {
    var k := |PathTo(f, p)|;
    y := Path(f, i)[k];
    PathEntry(f, i, k);
    assert p.Some? ==> Path(f, i)[k - 1] == PathTo(f, p)[k - 1];
  }

  /** Below a task there are only larger indexes. */
  lemma {:induction false} UnderTask(f: Forest, x: nat, i: nat)
    requires WellFormed(f) && x in f
    ensures Under(f, Some(x), x + 1, i) <==> Above(f, x, i) && i != x
  {
    if Above(f, x, i) && i != x {
      if Path(f, x) == Path(f, i) { PathInjective(f, x, i); }
      var y := ChildOnPath(f, Some(x), i);
    }
  }

  lemma {:induction false} UnderSplits(f: Forest, p: Option<nat>, lo: nat, i: nat)
    requires WellFormed(f) && (p.Some? ==> p.value in f)
    ensures lo in f && f[lo].parent == p ==> (Under(f, p, lo, i) <==> Above(f, lo, i) || Under(f, p, lo + 1, i))
    ensures !(lo in f && f[lo].parent == p) ==> (Under(f, p, lo, i) <==> Under(f, p, lo + 1, i))
  {
    if i in f && PathTo(f, p) < Path(f, i) {
      var y := ChildOnPath(f, p, i);
    }
    if lo in f && f[lo].parent == p && Above(f, lo, i) {
      var k := |PathTo(f, p)|;
      assert Path(f, lo) == PathTo(f, p) + [lo];
      assert Path(f, i)[k] == Path(f, lo)[k] == lo;
    }
  }

  lemma {:induction false} WalkElements(f: Forest, bound: nat, p: Option<nat>, lo: nat, i: nat)
    requires WellFormed(f) && Bounded(f, bound) && lo <= bound + 1 && (p.Some? ==> p.value in f)
    ensures i in Walk(f, bound, p, lo) <==> Under(f, p, lo, i)
    decreases bound + 1 - lo
  {
    if lo > bound {
      if Under(f, p, lo, i) {
        PathEntry(f, i, |PathTo(f, p)|);
      }
    } else {
      UnderSplits(f, p, lo, i);
      WalkElements(f, bound, p, lo + 1, i);
      if lo in f && f[lo].parent == p {
        WalkElements(f, bound, Some(lo), lo + 1, i);
        UnderTask(f, lo, i);
        var inner, later := Walk(f, bound, Some(lo), lo + 1), Walk(f, bound, p, lo + 1);
        assert i in [lo] + inner + later <==> i == lo || i in inner || i in later;
      }
    }
  }

  lemma {:induction false} WalkSorted(f: Forest, bound: nat, p: Option<nat>, lo: nat)
    requires WellFormed(f) && Bounded(f, bound) && lo <= bound + 1 && (p.Some? ==> p.value in f)
    ensures Sorted(f, Walk(f, bound, p, lo))
    decreases bound + 1 - lo
  {
    if lo <= bound {
      WalkSorted(f, bound, p, lo + 1);
      if lo in f && f[lo].parent == p {
        WalkSorted(f, bound, Some(lo), lo + 1);
        var inner, later := Walk(f, bound, Some(lo), lo + 1), Walk(f, bound, p, lo + 1);
        forall i | 0 <= i < |inner| ensures Above(f, lo, inner[i]) && inner[i] != lo {
          WalkElements(f, bound, Some(lo), lo + 1, inner[i]);
          UnderTask(f, lo, inner[i]);
        }
        forall j | 0 <= j < |later| ensures Under(f, p, lo + 1, later[j]) {
          WalkElements(f, bound, p, lo + 1, later[j]);
        }
        PiecesSorted(f, p, lo, inner, later);
      }
    }
  }

  lemma {:induction false} PiecesSorted(f: Forest, p: Option<nat>, lo: nat, inner: seq<nat>, later: seq<nat>)
    requires WellFormed(f) && (p.Some? ==> p.value in f) && lo in f && f[lo].parent == p
    requires Sorted(f, inner) && forall i :: 0 <= i < |inner| ==> Above(f, lo, inner[i]) && inner[i] != lo
    requires Sorted(f, later) && forall j :: 0 <= j < |later| ==> Under(f, p, lo + 1, later[j])
    ensures Sorted(f, [lo] + inner + later)
  {
    var rel := Order(f);
    forall i | 0 <= i < |inner| ensures rel(lo, inner[i]) {
      AncestorFirst(f, lo, inner[i]);
    }
    forall j | 0 <= j < |later| ensures rel(lo, later[j]) {
      LaterSubtree(f, p, lo, lo, later[j]);
    }
    forall i, j | 0 <= i < |inner| && 0 <= j < |later| ensures rel(inner[i], later[j]) {
      LaterSubtree(f, p, lo, inner[i], later[j]);
    }
    JoinSortedBy(rel, lo, inner, later);
  }

  lemma {:induction false} LaterSubtree(f: Forest, p: Option<nat>, lo: nat, a: nat, b: nat)
    requires WellFormed(f) && (p.Some? ==> p.value in f) && lo in f && f[lo].parent == p
    requires Above(f, lo, a) && Under(f, p, lo + 1, b)
    ensures Before(f, a, b)
  {
    var c := PathTo(f, p);
    PathEntry(f, b, |c|);
    var y := Path(f, b)[|c|];
    assert f[y].parent == p by {
      assert p.Some? ==> Path(f, b)[|c| - 1] == c[|c| - 1];
    }
    SiblingsDecide(f, a, b, lo, y);
  }

  /** The preorder of the whole forest lists every task once, in order. */
  lemma {:induction false} PreorderComplete(f: Forest, bound: nat)
    requires WellFormed(f) && Bounded(f, bound)
    ensures Sorted(f, Walk(f, bound, None, 0))
    ensures forall i :: i in Walk(f, bound, None, 0) <==> i in f
  {
    WalkSorted(f, bound, None, 0);
    forall i ensures i in Walk(f, bound, None, 0) <==> i in f {
      if i >= 0 {
        WalkElements(f, bound, None, 0, i);
      }
    }
  }

  lemma {:induction false} SortedFirst(f: Forest, s: seq<nat>, t: seq<nat>)
    requires WellFormed(f) && Sorted(f, s) && Sorted(f, t) && s != [] && t != []
    requires s[0] in t && t[0] in s
    ensures s[0] == t[0]
  {
    if s[0] != t[0] {
      var i :| 0 <= i < |t| && t[i] == s[0];
      var j :| 0 <= j < |s| && s[j] == t[0];
      assert Order(f)(t[0], t[i]) && Order(f)(s[0], s[j]);
      BeforeStrictTotal(f, s[0], t[0], t[0]);
    }
  }

  /** There is one way only to list the same tasks in order: whatever the sorting algorithm. */
  lemma {:induction false} SortedUnique(f: Forest, s: seq<nat>, t: seq<nat>)
    requires WellFormed(f) && Sorted(f, s) && Sorted(f, t)
    requires forall i :: i in s <==> i in t
    ensures s == t
    decreases |s|
  {
    if t != [] {
      SomeElement(t, s);
    }
    if s != [] {
      SomeElement(s, t);
      SortedSplit(f, s, t);
      SortedUnique(f, s[1..], t[1..]);
      assert s == [s[0]] + s[1..] && t == [t[0]] + t[1..];
    }
  }

  lemma {:induction false} SortedSplit(f: Forest, s: seq<nat>, t: seq<nat>)
    requires WellFormed(f) && Sorted(f, s) && Sorted(f, t) && s != [] && t != []
    requires forall i :: i in s <==> i in t
    ensures s[0] == t[0] && (forall i :: i in s[1..] <==> i in t[1..]) && Sorted(f, s[1..]) && Sorted(f, t[1..])
  {
    assert s[0] in t && t[0] in s;
    SortedFirst(f, s, t);
    forall i ensures i in s[1..] <==> i in t[1..] {
      SortedTail(f, s, i);
      SortedTail(f, t, i);
    }
  }

  lemma {:induction false} SomeElement(s: seq<nat>, t: seq<nat>)
    requires s != [] && forall i :: i in s ==> i in t
    ensures t != []
  {
    assert s[0] in t;
  }

  lemma {:induction false} SortedTail(f: Forest, s: seq<nat>, i: int)
    requires WellFormed(f) && Sorted(f, s) && s != []
    ensures i in s[1..] <==> i in s && i != s[0]
  {
    if i in s[1..] {
      var k :| 0 <= k < |s| - 1 && s[1..][k] == i;
      assert Order(f)(s[0], s[k + 1]);
      BeforeStrictTotal(f, s[0], s[0], s[0]);
    }
    if i in s && i != s[0] {
      var k :| 0 <= k < |s| && s[k] == i;
      assert s[1..][k - 1] == i;
    }
  }

  /** A sorted list of all tasks is the preorder of the forest. */
  lemma {:induction false} SortedIsPreorder(f: Forest, bound: nat, s: seq<nat>)
    requires WellFormed(f) && Bounded(f, bound) && Sorted(f, s) && forall i :: i in s <==> i in f
    ensures s == Walk(f, bound, None, 0)
  {
    PreorderComplete(f, bound);
    SortedUnique(f, s, Walk(f, bound, None, 0));
  }

  /** Parents come before their descendants, siblings with everything below them by index. */
  lemma {:induction false} ParentsFirst(f: Forest, s: seq<nat>, i: nat, j: nat)
    requires WellFormed(f) && Sorted(f, s) && i < |s| && j < |s|
    ensures Above(f, s[i], s[j]) ==> i <= j
    ensures f[s[i]].parent == f[s[j]].parent && s[i] < s[j] ==> i < j
  {
    if j < i {
      assert Order(f)(s[j], s[i]);
      BeforeStrictTotal(f, s[j], s[i], s[i]);
      if s[i] != s[j] && Above(f, s[i], s[j]) {
        AncestorFirst(f, s[i], s[j]);
      }
      if f[s[i]].parent == f[s[j]].parent && s[i] != s[j] {
        SiblingsDecide(f, s[i], s[j], s[i], s[j]);
      }
    }
  }

  /** Every subtree is one contiguous piece of the list. */
  lemma {:induction false} SubtreesContiguous(f: Forest, s: seq<nat>, x: nat, i: nat, j: nat, k: nat)
    requires WellFormed(f) && Sorted(f, s) && x in f && i < j < k < |s|
    requires Above(f, x, s[i]) && Above(f, x, s[k])
    ensures Above(f, x, s[j])
  {
    assert Order(f)(s[i], s[j]) && Order(f)(s[j], s[k]);
    LexBetween(Path(f, x), Path(f, s[i]), Path(f, s[j]), Path(f, s[k]));
  }
}
