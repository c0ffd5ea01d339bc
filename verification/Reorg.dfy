/**
Reorg accounting of the `check_consensus_reorgs` task: from the old head the search climbs
cached parents until it meets a block that is an ancestor of, or equal to, the new head.
*/
module Reorg {
  import opened BlockTree
  import opened BlockCaching

  /** `a` is the `k`-th cached proper ancestor of a block whose parent root is `parent`. The block
      itself may have left the cache. */
  ghost predicate AncestorAt(t: Tree, parent: Option<Root>, a: Root, k: nat) {
    k > 0 && parent.Some? && a in t && Reaches(t, parent.value, a, k - 1)
  }

  /** `a` is the nearest cached proper ancestor that the new head descends from (or is). */
  ghost predicate NearestShared(t: Tree, parent: Option<Root>, newRoot: Root, a: Root, k: nat) {
    && AncestorAt(t, parent, a, k) && Linked(t, a, newRoot)
    && forall j: nat, b: Root :: j < k && AncestorAt(t, parent, b, j) ==> !Linked(t, b, newRoot)
  }

  /** The reported distance: the steps up from the old head plus the steps up from the
      new head to the nearest shared ancestor; without one, the number of cached proper
      ancestors of the old head. */
  ghost predicate ReportedDistance(t: Tree, parent: Option<Root>, newRoot: Root, unknown: bool, dist: nat) {
    if unknown then
      && (dist > 0 ==> exists a :: AncestorAt(t, parent, a, dist))
      && (forall j: nat, b: Root :: AncestorAt(t, parent, b, j) ==> j <= dist && !Linked(t, b, newRoot))
    else
      exists a, k: nat :: NearestShared(t, parent, newRoot, a, k) && k <= dist && Reaches(t, newRoot, a, dist - k)
  }

  ghost predicate KeyedByRoot(roots: RootIndex) {
    forall r :: r in roots ==> roots[r].root == r
  }

  class ReorgTask {
    const cache: BlockCache
    var totalReorgs: nat
    var maxReorgDistance: nat

    constructor (cache: BlockCache)
      ensures this.cache == cache && totalReorgs == 0 && maxReorgDistance == 0
    {
      this.cache := cache;
      totalReorgs, maxReorgDistance := 0, 0;
    }

    /** The search loop. */
    method FindShared(oldHead: Block, newRoot: Root) returns (unknown: bool, oldDist: nat, newDist: nat)
      requires KeyedByRoot(cache.blockRootMap) && SlotsIncrease(cache.View())
      ensures ReportedDistance(cache.View(), oldHead.parentRoot, newRoot, unknown, oldDist + newDist)
    {
      ghost var t, first := cache.View(), oldHead.parentRoot;
      var parentHead := oldHead;
      oldDist := 0;
      while true
        invariant cache.View() == t
        invariant oldDist == 0 ==> parentHead.parentRoot == first
        invariant oldDist > 0 ==>
                  && AncestorAt(t, first, parentHead.root, oldDist)
                  && t[parentHead.root] == Node(parentHead.slot, parentHead.parentRoot)
        invariant NoneShared(t, first, newRoot, oldDist)
        decreases if oldDist == 0 then 1 else 0, parentHead.slot
      {
        var parentRoot := parentHead.parentRoot;
        if parentRoot == None || parentRoot.value !in cache.blockRootMap {
          SearchEnds(t, first, parentHead.root, parentRoot, newRoot, oldDist);
          return true, oldDist, 0;
        }
        SearchStep(t, first, parentHead.root, parentRoot.value, newRoot, oldDist);
        parentHead := cache.blockRootMap[parentRoot.value];
        oldDist := oldDist + 1;
        var linked, newHeadDist := cache.GetBlockDistance(parentHead.root, newRoot);
        if linked {
          SearchFound(t, first, newRoot, parentHead.root, oldDist, newHeadDist);
          return false, oldDist, newHeadDist;
        }
      }
    }

    method ProcessChainReorg(oldHead: Block, newHead: Block) returns (unknown: bool, reorgDistance: nat)
      requires KeyedByRoot(cache.blockRootMap) && SlotsIncrease(cache.View())
      modifies `totalReorgs, `maxReorgDistance
      ensures ReportedDistance(cache.View(), oldHead.parentRoot, newHead.root, unknown, reorgDistance)
      ensures totalReorgs == old(totalReorgs) + 1
      ensures maxReorgDistance == if reorgDistance > old(maxReorgDistance) then reorgDistance else old(maxReorgDistance)
    {
      var oldHeadDistance, newHeadDistance;
      unknown, oldHeadDistance, newHeadDistance := FindShared(oldHead, newHead.root);
      reorgDistance := oldHeadDistance + newHeadDistance;
      if reorgDistance > maxReorgDistance {
        maxReorgDistance := reorgDistance;
      }
      totalReorgs := totalReorgs + 1;
    }
  }

  ghost predicate NoneShared(t: Tree, first: Option<Root>, newRoot: Root, k: nat) {
    forall j: nat, b: Root :: j <= k && AncestorAt(t, first, b, j) ==> !Linked(t, b, newRoot)
  }

  lemma {:induction false} SearchStep(t: Tree, first: Option<Root>, at: Root, next: Root, newRoot: Root, k: nat)
    requires k == 0 ==> first == Some(next)
    requires k > 0 ==> AncestorAt(t, first, at, k) && t[at].parent == Some(next)
    requires next in t && NoneShared(t, first, newRoot, k)
    ensures AncestorAt(t, first, next, k + 1)
    ensures !Linked(t, next, newRoot) ==> NoneShared(t, first, newRoot, k + 1)
    ensures Linked(t, next, newRoot) ==> NearestShared(t, first, newRoot, next, k + 1)
  {
    if k > 0 {
      StepUp(t, first.value, at, next, k - 1);
    }
    forall j: nat, b: Root | j <= k + 1 && AncestorAt(t, first, b, j) ensures j <= k || b == next {
      if j == k + 1 {
        ReachesSplits(t, first.value, next, b, k, k);
      }
    }
  }

  lemma {:induction false} SearchFound(t: Tree, first: Option<Root>, newRoot: Root, a: Root, k: nat, m: nat)
    requires NearestShared(t, first, newRoot, a, k) && Reaches(t, newRoot, a, m)
    ensures ReportedDistance(t, first, newRoot, false, k + m)
  {
    assert k + m - k == m;
  }

  lemma {:induction false} SearchEnds(t: Tree, first: Option<Root>, at: Root, next: Option<Root>, newRoot: Root, k: nat)
    requires k == 0 ==> next == first
    requires k > 0 ==> AncestorAt(t, first, at, k) && t[at].parent == next
    requires next == None || next.value !in t
    requires NoneShared(t, first, newRoot, k)
    ensures ReportedDistance(t, first, newRoot, true, k)
  {
    forall j: nat, b: Root | AncestorAt(t, first, b, j) ensures j <= k {
      if j > k && k > 0 {
        ReachesSplits(t, first.value, at, b, k - 1, j - 1);
      }
    }
  }

  /** Between two cached heads the report is exact: it is the length of the one simple tree path
      if and only if the old head is not an ancestor of the new head; otherwise it is too long
      by exactly two. */
  lemma {:induction false} ReportedIsPathLength(t: Tree, old_: Root, new_: Root, dist: nat, p: seq<Root>)
    requires SlotsIncrease(t) && old_ in t && new_ in t
    requires ReportedDistance(t, t[old_].parent, new_, false, dist)
    requires IsPath(t, p, old_, new_)
    ensures dist == |p| - 1 <==> !Linked(t, old_, new_)
    ensures Linked(t, old_, new_) ==> dist == |p| + 1
  {
    var a, k: nat :| NearestShared(t, t[old_].parent, new_, a, k) && k <= dist && Reaches(t, new_, a, dist - k);
    if Linked(t, old_, new_) {
      var d := LinkedSteps(t, old_, new_);
      assert NearestCommon(t, old_, new_, old_, 0);
      PathLengthUnique(t, old_, new_, old_, 0, d, p);
      SharedAboveLinked(t, old_, new_, a, k, d);
      ReachesAdds(t, new_, old_, a, d, 1);
      DistanceUnique(t, new_, a, d + 1, dist - k);
    } else {
      SharedIsCommon(t, old_, new_, a, k);
      PathLengthUnique(t, old_, new_, a, k, dist - k, p);
    }
  }

  /** The chain 1 - 2 - 3 - 4. */
  function FourBlocks(): Tree {
    map[1 := Node(1, None), 2 := Node(2, Some(1)), 3 := Node(3, Some(2)), 4 := Node(4, Some(3))]
  }

  /** A head that moves forward from block 2 to block 4 lies two blocks ahead and is reported at four. */
  lemma {:induction false} ForwardMoveReportedTooFar()
    ensures var t := FourBlocks();
            SlotsIncrease(t) && IsPath(t, [2, 3, 4], 2, 4) && ReportedDistance(t, t[2].parent, 4, false, 4)
  {
    var t := FourBlocks();
    assert Reaches(t, 1, 1, 0) && Reaches(t, 2, 1, 1);
    assert Reaches(t, 3, 1, 2) && Reaches(t, 3, 2, 1);
    assert Reaches(t, 4, 1, 3);
    assert AncestorAt(t, Some(1), 1, 1) && Linked(t, 1, 4);
    assert NearestShared(t, t[2].parent, 4, 1, 1);
    SearchFound(t, t[2].parent, 4, 1, 1, 3);
  }

  /** Such a path exists whenever the search succeeds. */
  lemma {:induction false} PathBetweenHeads(t: Tree, old_: Root, new_: Root, dist: nat) returns (p: seq<Root>)
    requires SlotsIncrease(t) && old_ in t && new_ in t
    requires ReportedDistance(t, t[old_].parent, new_, false, dist)
    ensures IsPath(t, p, old_, new_)
  {
    var a, k: nat :| NearestShared(t, t[old_].parent, new_, a, k) && k <= dist && Reaches(t, new_, a, dist - k);
    if Linked(t, old_, new_) {
      var d := LinkedSteps(t, old_, new_);
      assert NearestCommon(t, old_, new_, old_, 0);
      p := PathExists(t, old_, new_, old_, 0, d);
    } else {
      SharedIsCommon(t, old_, new_, a, k);
      p := PathExists(t, old_, new_, a, k, dist - k);
    }
  }

  lemma {:induction false} SharedIsCommon(t: Tree, x: Root, y: Root, a: Root, k: nat)
    requires x in t && !Linked(t, x, y) && NearestShared(t, t[x].parent, y, a, k)
    ensures NearestCommon(t, x, y, a, k)
  {
    forall j: nat, b: Root | j < k && Reaches(t, x, b, j) && b in t ensures !Linked(t, b, y) {
      if j > 0 {
        assert AncestorAt(t, t[x].parent, b, j);
      }
    }
  }

  /** When the old head is already an ancestor, the search still moves one block up. */
  lemma {:induction false} SharedAboveLinked(t: Tree, x: Root, y: Root, a: Root, k: nat, d: nat)
    requires SlotsIncrease(t) && x in t && Reaches(t, y, x, d)
    requires NearestShared(t, t[x].parent, y, a, k)
    ensures k == 1 && Reaches(t, x, a, 1)
  {
    var q := t[x].parent.value;
    assert q in t by {
      if k == 1 { assert q == a; }
    }
    assert Reaches(t, x, q, 1);
    ReachesAdds(t, y, x, q, d, 1);
    assert Linked(t, q, y);
    assert AncestorAt(t, t[x].parent, q, 1);
    assert k == 1;
  }
}
