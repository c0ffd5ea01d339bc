/**
The consensus block cache: two indexes of the same block objects (by root and by slot),
eviction by follow distance, and ancestry queries that walk parent roots.
Every method is one mutex section of assertoor's block cache.
*/
module BlockCaching {
  import opened BlockTree
  import opened Sorting

  const MAX_FOLLOW_DISTANCE := 10000

  function Min(a: nat, b: nat): nat { if a < b then a else b }

  class Block {
    const root: Root
    const slot: Slot
    var parentRoot: Option<Root>  // None until the header is loaded

    constructor (root: Root, slot: Slot)
      ensures this.root == root && this.slot == slot && parentRoot == None
    {
      this.root := root;
      this.slot := slot;
      parentRoot := None;
    }
  }

  type RootIndex = map<Root, Block>
  type SlotIndex = map<Slot, seq<Block>>

  ghost predicate InBucket(slots: SlotIndex, b: Block) {
    b.slot in slots && b in slots[b.slot]
  }

  ghost predicate InRoots(roots: RootIndex, b: Block) {
    b.root in roots && roots[b.root] == b
  }

  /** The two indexes hold the same blocks: each block under its own root, and exactly once in
      the bucket of its own slot; no bucket is empty. */
  ghost predicate SameBlocks(roots: RootIndex, slots: SlotIndex) {
    && (forall r :: r in roots ==> roots[r].root == r && InBucket(slots, roots[r]))
    && (forall s :: s in slots ==> slots[s] != [] && Distinct(slots[s]))
    && (forall s, b :: s in slots && b in slots[s] ==> b.slot == s && InRoots(roots, b))
  }

  ghost predicate SlotsUpTo(roots: RootIndex, maxSlot: Slot) {
    forall r :: r in roots ==> roots[r].slot <= maxSlot
  }

  /** `left` is `roots` without the blocks of the slots in `gone`. */
  ghost predicate RootsWithout(left: RootIndex, roots: RootIndex, gone: set<Slot>) {
    && (forall r :: r in left <==> r in roots && roots[r].slot !in gone)
    && (forall r :: r in left ==> left[r] == roots[r])
  }

  /** `left` is exactly the blocks of `roots` at or above the cut-off slot. */
  ghost predicate RootsFrom(left: RootIndex, roots: RootIndex, cutOff: nat) {
    && (forall r :: r in left <==> r in roots && roots[r].slot >= cutOff)
    && (forall r :: r in left ==> left[r] == roots[r])
  }

  lemma {:induction false} WithoutIsFrom(left: RootIndex, roots: RootIndex, slots: SlotIndex, gone: set<Slot>,
                                         cutOff: nat)
    requires SameBlocks(roots, slots) && RootsWithout(left, roots, gone)
    requires forall s :: s in gone <==> s in slots && s < cutOff
    ensures RootsFrom(left, roots, cutOff)
  {
  }

  lemma {:induction false} AddKeepsIndexes(roots: RootIndex, slots: SlotIndex, b: Block, roots': RootIndex,
                                           slots': SlotIndex)
    requires SameBlocks(roots, slots) && b.root !in roots
    requires roots' == roots[b.root := b]
    requires slots' == slots[b.slot := (if b.slot in slots then slots[b.slot] else []) + [b]]
    ensures SameBlocks(roots', slots')
  {
    forall r | r in roots' ensures roots'[r].root == r && InBucket(slots', roots'[r]) {
      assert r != b.root ==> InBucket(slots, roots[r]);
    }
    forall s, c | s in slots' && c in slots'[s] ensures c.slot == s && InRoots(roots', c) {
      if c != b { assert s in slots && c in slots[s] && InRoots(roots, c); }
    }
    forall s | s in slots' ensures Distinct(slots'[s]) {
      if s == b.slot && s in slots { assert b !in slots[s]; }
    }
  }

  /** Dropping the same slots from both indexes keeps them consistent. */
  lemma {:induction false} DropKeepsIndexes(roots: RootIndex, slots: SlotIndex, roots': RootIndex, slots': SlotIndex)
    requires SameBlocks(roots, slots)
    requires forall s :: s in slots' ==> s in slots && slots'[s] == slots[s]
    requires forall r :: r in roots' ==> r in roots && roots'[r] == roots[r]
    requires forall r :: r in roots' <==> r in roots && roots[r].slot in slots'
    ensures SameBlocks(roots', slots')
  {
    forall r | r in roots' ensures roots'[r].root == r && InBucket(slots', roots'[r]) {
      assert InBucket(slots, roots[r]);
    }
    forall s, c | s in slots' && c in slots'[s] ensures c.slot == s && InRoots(roots', c) {
      assert s in slots && c in slots[s] && InRoots(roots, c);
    }
  }

  class BlockCache {
    var followDistance: nat
    var blockSlotMap: map<Slot, seq<Block>>
    var blockRootMap: map<Root, Block>
    var maxSlotIdx: Slot

    constructor (followDistance: nat)
      requires followDistance > 0
      ensures Valid() && blockRootMap == map[] && this.followDistance == followDistance
    {
      this.followDistance := followDistance;
      blockSlotMap := map[];
      blockRootMap := map[];
      maxSlotIdx := 0;
    }

    ghost predicate Valid()
      reads this
    {
      followDistance > 0 && SameBlocks(blockRootMap, blockSlotMap) && SlotsUpTo(blockRootMap, maxSlotIdx)
    }

    /** The cached block tree. */
    ghost function View(): (t: Tree)
      reads this, blockRootMap.Values
      ensures t.Keys == blockRootMap.Keys
    {
      map r | r in blockRootMap :: Node(blockRootMap[r].slot, blockRootMap[r].parentRoot)
    }

    function BucketAt(slot: Slot): seq<Block>
      reads this
    {
      if slot in blockSlotMap then blockSlotMap[slot] else []
    }

    /** First slot that is kept, or 0 when nothing may be evicted. */
    function CutOff(): (s: nat)
      reads this
      ensures s <= maxSlotIdx
    {
      if maxSlotIdx - followDistance > 0 then maxSlotIdx - followDistance else 0
    }

    method SetMinFollowDistance(distance: nat)
      requires Valid()
      modifies this`followDistance
      ensures Valid()
      ensures followDistance >= old(followDistance) && followDistance >= Min(distance, MAX_FOLLOW_DISTANCE)
      ensures followDistance == old(followDistance) || followDistance == Min(distance, MAX_FOLLOW_DISTANCE)
    {
      var d := if distance > MAX_FOLLOW_DISTANCE then MAX_FOLLOW_DISTANCE else distance;
      if d > followDistance {
        followDistance := d;
      }
    }

    /** A known root returns the block already cached; an unknown root below the cut-off is
        refused; any other block is added to both indexes and nothing else changes. */
    method AddBlock(root: Root, slot: Slot) returns (block: Block?, isNew: bool)
      requires Valid()
      modifies this`blockSlotMap, this`blockRootMap, this`maxSlotIdx
      ensures Valid()
      ensures isNew <==> root !in old(blockRootMap) && slot >= old(CutOff())
      ensures root in old(blockRootMap) ==> block == old(blockRootMap)[root]
      ensures block == null <==> root !in old(blockRootMap) && slot < old(CutOff())
      ensures !isNew ==> blockRootMap == old(blockRootMap) && blockSlotMap == old(blockSlotMap)
                         && maxSlotIdx == old(maxSlotIdx)
      ensures isNew ==> fresh(block) && block.root == root && block.slot == slot && block.parentRoot == None
                        && blockRootMap == old(blockRootMap)[root := block]
                        && blockSlotMap == old(blockSlotMap)[slot := old(BucketAt(slot)) + [block as Block]]
                        && maxSlotIdx == (if slot > old(maxSlotIdx) then slot else old(maxSlotIdx))
    {
      if root in blockRootMap {
        return blockRootMap[root], false;
      }
      var cutOffSlot := maxSlotIdx - followDistance;
      if cutOffSlot > 0 && slot < cutOffSlot {
        return null, false;
      }
      var b := new Block(root, slot);
      ghost var roots, slots := blockRootMap, blockSlotMap;
      blockRootMap := blockRootMap[root := b];
      blockSlotMap := blockSlotMap[slot := (if slot in blockSlotMap then blockSlotMap[slot] else []) + [b]];
      AddKeepsIndexes(roots, slots, b, blockRootMap, blockSlotMap);
      if slot > maxSlotIdx {
        maxSlotIdx := slot;
      }
      return b, true;
    }

    /** Evicts exactly the blocks below the cut-off from both indexes. */
    method CleanupBlockCache()
      requires Valid()
      modifies this`blockSlotMap, this`blockRootMap
      ensures Valid()
      ensures RootsFrom(blockRootMap, old(blockRootMap), CutOff())
      ensures forall s :: s in blockSlotMap <==> s in old(blockSlotMap) && s >= CutOff()
      ensures forall s :: s in blockSlotMap ==> blockSlotMap[s] == old(blockSlotMap)[s]
    {
      var minSlot := maxSlotIdx - followDistance;
      if minSlot <= 0 {
        return;
      }
      var rest := blockSlotMap.Keys;
      ghost var gone: set<Slot> := {};
      while rest != {}
        invariant rest <= blockSlotMap.Keys && minSlot == CutOff()
        invariant forall s :: s in gone <==> s in old(blockSlotMap) && s < minSlot && s !in rest
        invariant SameBlocks(blockRootMap, blockSlotMap)
        invariant blockSlotMap == old(blockSlotMap) - gone
        invariant RootsWithout(blockRootMap, old(blockRootMap), gone)
        decreases |rest|
      {
        var slot :| slot in rest;
        rest := rest - {slot};
        if slot < minSlot {
          DropSlot(slot);
          gone := gone + {slot};
        }
      }
      WithoutIsFrom(blockRootMap, old(blockRootMap), old(blockSlotMap), gone, minSlot);
    }

    method DropSlot(slot: Slot)
      requires SameBlocks(blockRootMap, blockSlotMap) && slot in blockSlotMap
      modifies this`blockSlotMap, this`blockRootMap
      ensures SameBlocks(blockRootMap, blockSlotMap)
      ensures blockSlotMap == old(blockSlotMap) - {slot}
      ensures RootsWithout(blockRootMap, old(blockRootMap), {slot})
    {
      ghost var roots, slots := blockRootMap, blockSlotMap;
      blockRootMap := DeleteRoots(blockRootMap, blockSlotMap[slot]);
      blockSlotMap := blockSlotMap - {slot};
      forall r | r in roots
        ensures roots[r].slot == slot <==> exists b: Block :: b in slots[slot] && b.root == r
      {
        assert InBucket(slots, roots[r]);
        if b: Block :| b in slots[slot] && b.root == r { assert InRoots(roots, b); }
      }
      DropKeepsIndexes(roots, slots, blockRootMap, blockSlotMap);
    }

    static method DeleteRoots(m: map<Root, Block>, blocks: seq<Block>) returns (left: map<Root, Block>)
      ensures forall r :: r in left <==> r in m && !(exists b :: b in blocks && b.root == r)
      ensures forall r :: r in left ==> left[r] == m[r]
    {
      left := m;
      for i := 0 to |blocks|
        invariant forall r :: r in left <==> r in m && !(exists k :: 0 <= k < i && blocks[k].root == r)
        invariant forall r :: r in left ==> left[r] == m[r]
      {
        left := left - {blocks[i].root};
      }
    }

    /** Every cached block once, slots descending. */
    method GetCachedBlocks() returns (blocks: seq<Block>)
      requires Valid()
      ensures Distinct(blocks)
      ensures forall b: Block :: b in blocks <==> InRoots(blockRootMap, b)
      ensures SlotsDescend(blocks)
    {
      var slots := SlotsDescending(blockSlotMap.Keys);
      blocks := [];
      for n := 0 to |slots|
        invariant forall b: Block :: b in blocks <==> b.slot in slots[..n] && InBucket(blockSlotMap, b)
        invariant Distinct(blocks) && SlotsDescend(blocks)
      {
        AppendBucket(blocks, blockSlotMap[slots[n]], slots[n]);
        assert slots[..n + 1] == slots[..n] + [slots[n]];
        blocks := blocks + blockSlotMap[slots[n]];
      }
      assert slots[..|slots|] == slots;
    }

    static method SlotsDescending(keys: set<Slot>) returns (slots: seq<Slot>)
      ensures forall s :: s in slots <==> s in keys
      ensures forall i, j :: 0 <= i < j < |slots| ==> slots[i] > slots[j]
    {
      slots := [];
      var rest := keys;
      while rest != {}
        invariant rest <= keys
        invariant forall s :: s in slots <==> s in keys && s !in rest
        invariant Distinct(slots)
        decreases |rest|
      {
        var s :| s in rest;
        slots := slots + [s];
        rest := rest - {s};
      }
      slots := SortDescending(slots, (s: Slot) => s as int);
    }

    /** Decides ancestry and measures it: for distinct roots, linked with distance `d` exactly when
        the block is cached and `d` parent steps through cached, header-loaded blocks lead from the
        head to it. Leaving the walk early on the slot never loses an ancestor. */
    method GetBlockDistance(blockRoot: Root, headRoot: Root) returns (linked: bool, distance: nat)
      requires SlotsIncrease(View())
      ensures linked <==> Linked(View(), blockRoot, headRoot)
      ensures linked ==> Reaches(View(), headRoot, blockRoot, distance)
      ensures distance == 0 <==> blockRoot == headRoot || !linked
    {
      if headRoot == blockRoot {
        return true, 0;
      }
      if blockRoot !in blockRootMap {
        return false, 0;
      }
      ghost var t := View();
      var blockSlot := blockRootMap[blockRoot].slot;
      var headBlock: Block? := if headRoot in blockRootMap then blockRootMap[headRoot] else null;
      ghost var at := headRoot;
      var dist := 0;
      while headBlock != null
        invariant headBlock != null ==> at in blockRootMap && blockRootMap[at] == headBlock
        invariant headBlock == null ==> at !in blockRootMap
        invariant Reaches(t, headRoot, at, dist) && at != blockRoot
        invariant forall k: nat :: k <= dist ==> !Reaches(t, headRoot, blockRoot, k)
        decreases if headBlock == null then 0 else headBlock.slot + 1
      {
        if headBlock.slot < blockSlot {
          TooLow(t, headRoot, at, blockRoot, dist);
          return false, 0;
        }
        var parentRoot := headBlock.parentRoot;
        if parentRoot == None {
          NoWayUp(t, headRoot, at, blockRoot, dist);
          return false, 0;
        }
        StepUp(t, headRoot, at, blockRoot, dist);
        dist := dist + 1;
        if parentRoot.value == blockRoot {
          return true, dist;
        }
        headBlock := if parentRoot.value in blockRootMap then blockRootMap[parentRoot.value] else null;
        at := parentRoot.value;
      }
      NoWayUp(t, headRoot, at, blockRoot, dist);
      return false, 0;
    }

    method IsCanonicalBlock(blockRoot: Root, headRoot: Root) returns (linked: bool)
      requires SlotsIncrease(View())
      ensures linked <==> Linked(View(), blockRoot, headRoot)
    {
      var distance;
      linked, distance := GetBlockDistance(blockRoot, headRoot);
    }
  }

  ghost predicate SlotsDescend(blocks: seq<Block>) {
    forall i, j :: 0 <= i < j < |blocks| ==> blocks[i].slot >= blocks[j].slot
  }

  /** Without a follow distance there is no cache. */
  method NewBlockCache(followDistance: nat) returns (cache: BlockCache?)
    ensures cache == null <==> followDistance == 0
    ensures cache != null ==>
            fresh(cache) && cache.Valid() && cache.blockRootMap == map[] && cache.followDistance == followDistance
  {
    if followDistance == 0 {
      return null;
    }
    cache := new BlockCache(followDistance);
  }

  lemma {:induction false} AppendBucket(blocks: seq<Block>, bucket: seq<Block>, slot: Slot)
    requires Distinct(blocks) && Distinct(bucket) && SlotsDescend(blocks)
    requires forall b :: b in blocks ==> b.slot > slot
    requires forall b :: b in bucket ==> b.slot == slot
    ensures Distinct(blocks + bucket) && SlotsDescend(blocks + bucket)
  {
  }

  /** One parent step of the walk. */
  lemma {:induction false} StepUp(t: Tree, head: Root, at: Root, b: Root, dist: nat)
    requires Reaches(t, head, at, dist) && at in t && t[at].parent.Some?
    ensures Reaches(t, head, t[at].parent.value, dist + 1)
    ensures Reaches(t, head, b, dist + 1) <==> b == t[at].parent.value
  {
    var next := t[at].parent.value;
    assert Reaches(t, at, next, 1);
    ReachesAdds(t, head, at, next, dist, 1);
    if Reaches(t, head, b, dist + 1) {
      ReachesSplits(t, head, next, b, dist + 1, dist + 1);
    }
  }

  /** Once the walk is below the slot of the block, the block is not above. */
  lemma {:induction false} TooLow(t: Tree, head: Root, at: Root, b: Root, dist: nat)
    requires SlotsIncrease(t) && at in t && b in t && t[at].slot < t[b].slot
    requires Reaches(t, head, at, dist)
    requires forall k: nat :: k <= dist ==> !Reaches(t, head, b, k)
    ensures !Linked(t, b, head)
  {
    forall k: nat ensures !Reaches(t, head, b, k) {
      if k > dist && Reaches(t, head, b, k) {
        ReachesSplits(t, head, at, b, dist, k);
        ReachesDescends(t, at, b, k - dist);
      }
    }
    assert !Reaches(t, head, b, 0);
  }

  /** Once the walk is at a block without a known parent, nothing further is reached. */
  lemma {:induction false} NoWayUp(t: Tree, head: Root, at: Root, b: Root, dist: nat)
    requires Reaches(t, head, at, dist) && (at !in t || t[at].parent == None)
    requires forall k: nat :: k <= dist ==> !Reaches(t, head, b, k)
    ensures !Linked(t, b, head)
  {
    forall k: nat ensures !Reaches(t, head, b, k) {
      if k > dist && Reaches(t, head, b, k) {
        ReachesSplits(t, head, at, b, dist, k);
      }
    }
    assert !Reaches(t, head, b, 0);
  }
}
