/**
The block tree seen by the consensus client pool: roots, slots, parent links and
the two relations every query of the block cache is about, `Reaches` (a number of
parent steps) and `Linked` (ancestor or equal).
*/
module BlockTree {

  datatype Option<+T> = None | Some(value: T)

  /** A 32 byte block root. Only equality of roots is ever used. */
  type Root = nat

  /** A slot number. The cache stores the largest slot as a signed 64 bit integer. */
  type Slot = s: int | 0 <= s < 0x8000_0000_0000_0000

  /** A cached block: its slot, and its parent root once the header was loaded. */
  datatype Node = Node(slot: Slot, parent: Option<Root>)

  type Tree = map<Root, Node>

  /** A cached parent has a smaller slot than its child (beacon chain block header rule). */
  ghost predicate SlotsIncrease(t: Tree) {
    forall r, p :: r in t && p in t && t[r].parent == Some(p) ==> t[p].slot < t[r].slot
  }

  /** `block` is met after exactly `d` parent steps from `head`, every step leaving a cached
      block whose header is loaded. */
  ghost predicate Reaches(t: Tree, head: Root, block: Root, d: nat)
    decreases d
  {
    if d == 0 then head == block
    else head in t && t[head].parent.Some? && Reaches(t, t[head].parent.value, block, d - 1)
  }

  /** `block` equals `head`, or is a cached proper ancestor of it. */
  ghost predicate Linked(t: Tree, block: Root, head: Root) {
    block == head || (block in t && exists d: nat :: d > 0 && Reaches(t, head, block, d))
  }

  lemma {:induction false} ReachesAdds(t: Tree, a: Root, b: Root, c: Root, m: nat, n: nat)
    requires Reaches(t, a, b, m) && Reaches(t, b, c, n)
    ensures Reaches(t, a, c, m + n)
    decreases m
  {
    if m > 0 {
      ReachesAdds(t, t[a].parent.value, b, c, m - 1, n);
    }
  }

  /** Two blocks met on the way up from one head lie on one chain. */
  lemma {:induction false} ReachesSplits(t: Tree, h: Root, a: Root, b: Root, m: nat, n: nat)
    requires Reaches(t, h, a, m) && Reaches(t, h, b, n) && m <= n
    ensures Reaches(t, a, b, n - m)
    decreases m
  {
    if m > 0 {
      ReachesSplits(t, t[h].parent.value, a, b, m - 1, n - 1);
    }
  }

  /** Every step to a cached block lowers the slot. */
  lemma {:induction false} ReachesDescends(t: Tree, h: Root, b: Root, d: nat)
    requires SlotsIncrease(t) && Reaches(t, h, b, d) && b in t
    ensures h in t && t[b].slot + d <= t[h].slot
    decreases d
  {
    if d > 0 {
      ReachesDescends(t, t[h].parent.value, b, d - 1);
    }
  }

  lemma {:induction false} NoCycle(t: Tree, b: Root, d: nat)
    requires SlotsIncrease(t) && b in t && Reaches(t, b, b, d)
    ensures d == 0
  {
    ReachesDescends(t, b, b, d);
  }

  /** A cached block is met at one distance only. */
  lemma {:induction false} DistanceUnique(t: Tree, h: Root, b: Root, m: nat, n: nat)
    requires SlotsIncrease(t) && b in t
    requires Reaches(t, h, b, m) && Reaches(t, h, b, n)
    ensures m == n
  {
    if m <= n {
      ReachesSplits(t, h, b, b, m, n);
      NoCycle(t, b, n - m);
    } else {
      ReachesSplits(t, h, b, b, n, m);
      NoCycle(t, b, m - n);
    }
  }

  lemma {:induction false} LinkedSteps(t: Tree, a: Root, h: Root) returns (d: nat)
    requires Linked(t, a, h)
    ensures Reaches(t, h, a, d)
    ensures d == 0 <==> a == h
    ensures d > 0 ==> a in t
  {
    if a == h {
      d := 0;
    } else {
      d :| d > 0 && Reaches(t, h, a, d);
    }
  }

  lemma {:induction false} LinkedTransitive(t: Tree, a: Root, b: Root, c: Root)
    requires Linked(t, a, b) && Linked(t, b, c)
    ensures Linked(t, a, c)
  {
    var m := LinkedSteps(t, b, c);
    var n := LinkedSteps(t, a, b);
    ReachesAdds(t, c, b, a, m, n);
  }

  /** Two ancestors of one block are comparable. */
  lemma {:induction false} LinkedComparable(t: Tree, a: Root, b: Root, h: Root)
    requires Linked(t, a, h) && Linked(t, b, h)
    ensures Linked(t, a, b) || Linked(t, b, a)
  {
    var m := LinkedSteps(t, a, h);
    var n := LinkedSteps(t, b, h);
    if m <= n {
      ReachesSplits(t, h, a, b, m, n);
    } else {
      ReachesSplits(t, h, b, a, n, m);
    }
  }

  /** Two blocks that are ancestors of each other are the same block. */
  lemma {:induction false} LinkedAntisymmetric(t: Tree, a: Root, b: Root)
    requires SlotsIncrease(t) && Linked(t, a, b) && Linked(t, b, a)
    ensures a == b
  {
    if a != b {
      var m := LinkedSteps(t, a, b);
      var n := LinkedSteps(t, b, a);
      ReachesAdds(t, b, a, b, m, n);
      ReachesDescends(t, b, b, m + n);
    }
  }

  // ----- paths in the undirected tree -----

  ghost predicate ParentOf(t: Tree, x: Root, y: Root) {
    x in t && y in t && t[x].parent == Some(y)
  }

  /** A simple path: neighbours are parent and child in either direction, no block twice. */
  ghost predicate IsPath(t: Tree, p: seq<Root>, from: Root, to: Root) {
    && |p| > 0 && p[0] == from && p[|p| - 1] == to
    && (forall i :: 0 <= i < |p| - 1 ==> ParentOf(t, p[i], p[i + 1]) || ParentOf(t, p[i + 1], p[i]))
    && (forall i, j :: 0 <= i < j < |p| ==> p[i] != p[j])
  }

  /** The path climbs for `i` steps and descends from there on. */
  ghost predicate ClimbsThenDescends(t: Tree, p: seq<Root>, i: nat) {
    && i < |p|
    && (forall j :: 0 <= j < i ==> ParentOf(t, p[j], p[j + 1]))
    && (forall j :: i <= j < |p| - 1 ==> ParentOf(t, p[j + 1], p[j]))
  }

  lemma {:induction false} PathShape(t: Tree, p: seq<Root>, x: Root, y: Root) returns (i: nat)
    requires IsPath(t, p, x, y)
    ensures ClimbsThenDescends(t, p, i)
    decreases |p|
  {
    if |p| == 1 {
      i := 0;
    } else {
      var rest := p[1..];
      forall k | 0 <= k < |rest| - 1
        ensures ParentOf(t, rest[k], rest[k + 1]) || ParentOf(t, rest[k + 1], rest[k])
      {
        assert rest[k] == p[k + 1] && rest[k + 1] == p[k + 2];
      }
      var top := PathShape(t, rest, p[1], y);
      assert forall k :: 0 <= k < |rest| ==> rest[k] == p[k + 1];
      if ParentOf(t, p[0], p[1]) {
        i := top + 1;
        forall j | 0 <= j < i ensures ParentOf(t, p[j], p[j + 1]) {
          if j > 0 { assert ParentOf(t, rest[j - 1], rest[j]); }
        }
        forall j | i <= j < |p| - 1 ensures ParentOf(t, p[j + 1], p[j]) {
          assert ParentOf(t, rest[j], rest[j - 1]);
        }
      } else {
        assert forall k :: 0 <= k < |rest| ==> rest[k] != p[0];
        assert top > 0 ==> ParentOf(t, rest[0], rest[0 + 1]);
        i := 0;
        forall j | 0 <= j < |p| - 1 ensures ParentOf(t, p[j + 1], p[j]) {
          if j > 0 { assert ParentOf(t, rest[j], rest[j - 1]); }
        }
      }
    }
  }

  lemma {:induction false} ClimbReaches(t: Tree, p: seq<Root>, i: nat, j: nat, k: nat)
    requires ClimbsThenDescends(t, p, i) && j <= k <= i
    ensures Reaches(t, p[j], p[k], k - j)
    decreases k - j
  {
    if j < k {
      assert ParentOf(t, p[j], p[j + 1]);
      ClimbReaches(t, p, i, j + 1, k);
    }
  }

  lemma {:induction false} DescentReaches(t: Tree, p: seq<Root>, i: nat, j: nat, k: nat)
    requires ClimbsThenDescends(t, p, i) && i <= j <= k < |p|
    ensures Reaches(t, p[k], p[j], k - j)
    decreases k - j
  {
    if j < k {
      assert ParentOf(t, p[k - 1 + 1], p[k - 1]);
      DescentReaches(t, p, i, j, k - 1);
    }
  }

  /** `a` is the nearest block above `x`, at `k` steps, that is an ancestor of `y` or `y` itself. */
  ghost predicate NearestCommon(t: Tree, x: Root, y: Root, a: Root, k: nat) {
    && Reaches(t, x, a, k) && a in t && Linked(t, a, y)
    && forall j: nat, b: Root :: j < k && Reaches(t, x, b, j) && b in t ==> !Linked(t, b, y)
  }

  lemma {:induction false} PathTopIsCommon(t: Tree, x: Root, y: Root, a: Root, k: nat, p: seq<Root>, i: nat)
    requires NearestCommon(t, x, y, a, k) && IsPath(t, p, x, y) && ClimbsThenDescends(t, p, i) && y in t
    ensures p[i] in t && i >= k && p[k] == a
    ensures Reaches(t, a, p[i], i - k) && Reaches(t, y, p[i], |p| - 1 - i)
  {
    ClimbReaches(t, p, i, 0, i);
    DescentReaches(t, p, i, i, |p| - 1);
    assert p[i] in t by {
      if i > 0 { assert ParentOf(t, p[i - 1], p[i - 1 + 1]); }
      else if |p| > 1 { assert ParentOf(t, p[i + 1], p[i]); }
    }
    assert Linked(t, p[i], y);
    ClimbReaches(t, p, i, 0, k);
    ReachesSplits(t, x, p[k], a, k, k);
    ReachesSplits(t, x, a, p[i], k, i);
  }

  /** Every simple path between two blocks runs through their nearest common ancestor,
      so all simple paths have the same length. */
  lemma {:induction false} PathLengthUnique(t: Tree, x: Root, y: Root, a: Root, k: nat, m: nat, p: seq<Root>)
    requires SlotsIncrease(t) && NearestCommon(t, x, y, a, k) && Reaches(t, y, a, m)
    requires y in t && IsPath(t, p, x, y)
    ensures |p| - 1 == k + m
  {
    var i := PathShape(t, p, x, y);
    PathTopIsCommon(t, x, y, a, k, p, i);
    ReachesAdds(t, y, a, p[i], m, i - k);
    DistanceUnique(t, y, p[i], m + (i - k), |p| - 1 - i);
    DescentReaches(t, p, i, |p| - 1 - m, |p| - 1);
    ReachesSplits(t, y, p[|p| - 1 - m], a, m, m);
  }

  /** The block met after `j` steps. */
  ghost function Up(t: Tree, x: Root, a: Root, d: nat, j: nat): (r: Root)
    requires Reaches(t, x, a, d) && j <= d
    ensures Reaches(t, x, r, j) && Reaches(t, r, a, d - j)
    ensures j < d ==> r in t
    decreases d
  {
    if j == 0 then x else Up(t, t[x].parent.value, a, d - 1, j - 1)
  }

  /** The `j`-th block on the way from `x` up to `a` and down to `y`. */
  ghost function Via(t: Tree, x: Root, y: Root, a: Root, k: nat, m: nat, j: nat): Root
    requires Reaches(t, x, a, k) && Reaches(t, y, a, m) && j <= k + m
  {
    if j <= k then Up(t, x, a, k, j) else Up(t, y, a, m, k + m - j)
  }

  lemma {:induction false} ViaStep(t: Tree, x: Root, y: Root, a: Root, k: nat, m: nat, j: nat)
    requires Reaches(t, x, a, k) && Reaches(t, y, a, m) && a in t && j < k + m
    ensures j < k ==> ParentOf(t, Via(t, x, y, a, k, m, j), Via(t, x, y, a, k, m, j + 1))
    ensures j >= k ==> ParentOf(t, Via(t, x, y, a, k, m, j + 1), Via(t, x, y, a, k, m, j))
  {
    if j < k {
      UpStep(t, x, a, k, j);
    } else {
      UpStep(t, y, a, m, k + m - j - 1);
      assert j == k ==> Up(t, y, a, m, m) == a == Up(t, x, a, k, k);
    }
  }

  lemma {:induction false} ViaEnds(t: Tree, x: Root, y: Root, a: Root, k: nat, m: nat)
    requires Reaches(t, x, a, k) && Reaches(t, y, a, m) && a in t
    ensures Via(t, x, y, a, k, m, 0) == x && Via(t, x, y, a, k, m, k + m) == y
  {
    assert Up(t, x, a, k, 0) == x && Up(t, y, a, m, 0) == y;
    assert m == 0 ==> Up(t, x, a, k, k) == a;
  }

  ghost function ViaPath(t: Tree, x: Root, y: Root, a: Root, k: nat, m: nat): (p: seq<Root>)
    requires Reaches(t, x, a, k) && Reaches(t, y, a, m)
    ensures |p| == k + m + 1 && forall j :: 0 <= j < |p| ==> p[j] == Via(t, x, y, a, k, m, j)
  {
    seq(k + m + 1, (j: nat) requires j <= k + m => Via(t, x, y, a, k, m, j))
  }

  /** There is a simple path through the nearest common ancestor. */
  lemma {:induction false} PathExists(t: Tree, x: Root, y: Root, a: Root, k: nat, m: nat) returns (p: seq<Root>)
    requires SlotsIncrease(t) && NearestCommon(t, x, y, a, k) && Reaches(t, y, a, m)
    ensures IsPath(t, p, x, y) && |p| - 1 == k + m
  {
    p := ViaPath(t, x, y, a, k, m);
    ViaEnds(t, x, y, a, k, m);
    forall j | 0 <= j < |p| - 1 ensures ParentOf(t, p[j], p[j + 1]) || ParentOf(t, p[j + 1], p[j]) {
      ViaStep(t, x, y, a, k, m, j);
    }
    ViaDistinct(t, x, y, a, k, m, p);
  }

  lemma {:induction false} ViaDistinct(t: Tree, x: Root, y: Root, a: Root, k: nat, m: nat, p: seq<Root>)
    requires SlotsIncrease(t) && NearestCommon(t, x, y, a, k) && Reaches(t, y, a, m) && p == ViaPath(t, x, y, a, k, m)
    ensures forall i, j :: 0 <= i < j < |p| ==> p[i] != p[j]
  {
    forall i, j | 0 <= i < j < |p| ensures p[i] != p[j] {
      PathDistinct(t, x, y, a, k, m, p, i, j);
    }
  }

  lemma {:induction false} UpStep(t: Tree, x: Root, a: Root, d: nat, j: nat)
    requires Reaches(t, x, a, d) && a in t && j < d
    ensures ParentOf(t, Up(t, x, a, d, j), Up(t, x, a, d, j + 1))
    decreases d
  {
    if j > 0 {
      UpStep(t, t[x].parent.value, a, d - 1, j - 1);
    } else {
      var q := t[x].parent.value;
      assert Up(t, x, a, d, 1) == q;
      if d == 1 { assert q == a; }
    }
  }

  lemma {:induction false} PathDistinct(t: Tree, x: Root, y: Root, a: Root, k: nat, m: nat, p: seq<Root>, i: nat,
                                        j: nat)
    requires SlotsIncrease(t) && NearestCommon(t, x, y, a, k) && Reaches(t, y, a, m)
    requires |p| == k + m + 1 && i < j < |p|
    requires forall l :: 0 <= l <= k ==> p[l] == Up(t, x, a, k, l)
    requires forall l :: k < l <= k + m ==> p[l] == Up(t, y, a, m, k + m - l)
    ensures p[i] != p[j]
  {
    if p[i] == p[j] {
      if j <= k {
        assert p[i] in t;
        DistanceUnique(t, x, p[i], i, j);
      } else if i > k {
        DistanceUnique(t, y, p[j], k + m - i, k + m - j);
      } else {
        assert Reaches(t, y, p[j], k + m - j) && p[j] in t;
        assert Linked(t, p[j], y);
        assert i == k;
        ReachesSplits(t, x, p[i], a, k, k);
        DistanceUnique(t, y, a, k + m - j, m);
      }
    }
  }
}
