/**
The attestation statistics task itself: loading the duties of an epoch when its first block
arrives, and the aggregation pass over the block cache.
*/
module AttestationTask {
  import opened BlockTree
  import opened AttestationVotes
  import opened CommitteeDuties
  import opened VoteLaws
  import Cache = BlockCaching

  /** The scanned part of the cache: every block once, in the bucket of its slot; a parent has a
      smaller slot than its child. */
  ghost predicate WindowOf(env: Env, blocks: map<nat, seq<Block>>) {
    && (forall r :: r in env.window ==> Bucketed(env, blocks, env.window[r]) && env.window[r].root == r)
    && (forall s, i :: s in blocks && env.FirstSlot() <= s <= env.LastSlot() && 0 <= i < |blocks[s]|
          ==> blocks[s][i].slot == s && blocks[s][i].root in env.window
              && env.window[blocks[s][i].root] == blocks[s][i])
    && (forall s, i, j :: s in blocks && 0 <= i < j < |blocks[s]| ==> blocks[s][i].root != blocks[s][j].root)
    && (forall r, p :: r in env.window && p in env.window && env.window[r].parent == Some(p)
          ==> env.window[p].slot < env.window[r].slot)
  }

  ghost predicate Bucketed(env: Env, blocks: map<nat, seq<Block>>, b: Block) {
    env.FirstSlot() <= b.slot <= env.LastSlot() && b.slot in blocks && b in blocks[b.slot]
  }

  /** After the blocks `done`: votes for exactly the participating blocks, each the fold over its own
      chain, and as heads those without participating child so far. */
  ghost predicate Progress(env: Env, done: set<Root>, allVotes: map<Root, EpochVotes>, allHeads: set<Root>)
    requires env.Valid()
  {
    ChainVotes(env, done, allVotes) && Heads(env, allVotes.Keys, allHeads)
  }

  ghost predicate ChainVotes(env: Env, done: set<Root>, allVotes: map<Root, EpochVotes>)
    requires env.Valid()
  {
    allVotes.Keys == done * Participants(env) && forall r :: r in allVotes ==> allVotes[r] == VotesAt(env, r)
  }

  ghost predicate Heads(env: Env, among: set<Root>, heads: set<Root>) {
    forall r :: r in heads <==> r in among && Childless(env, among, r)
  }

  /** Slot order: everything below the slot of `b` is done, nothing above it. */
  ghost predicate Next(env: Env, done: set<Root>, b: Block) {
    && b.root in env.window && env.window[b.root] == b && b.root !in done
    && (forall r :: r in env.window && env.window[r].slot < b.slot ==> r in done)
    && (forall r :: r in done ==> r in env.window && env.window[r].slot <= b.slot)
    && (forall r, p :: r in env.window && p in env.window && env.window[r].parent == Some(p)
          ==> env.window[p].slot < env.window[r].slot)
  }

  ghost function Below(env: Env, slot: nat): set<Root> {
    set r | r in env.window && env.window[r].slot < slot
  }

  /** Everything below the slot and the first `i` blocks of its bucket. */
  ghost function Scanned(env: Env, slot: nat, bucket: seq<Block>, i: nat): set<Root>
    requires i <= |bucket|
  {
    Below(env, slot) + set k | 0 <= k < i :: bucket[k].root
  }

  lemma {:induction false} BucketNext(env: Env, blocks: map<nat, seq<Block>>, slot: nat, bucket: seq<Block>, i: nat)
    requires WindowOf(env, blocks) && env.FirstSlot() <= slot <= env.LastSlot()
    requires slot in blocks && bucket == blocks[slot] && i < |bucket|
    ensures Next(env, Scanned(env, slot, bucket, i), bucket[i])
    ensures Scanned(env, slot, bucket, i + 1) == Scanned(env, slot, bucket, i) + {bucket[i].root}
  {
    assert forall k :: 0 <= k <= i ==> blocks[slot][k].slot == slot;
  }

  lemma {:induction false} BucketDone(env: Env, blocks: map<nat, seq<Block>>, slot: nat, bucket: seq<Block>)
    requires WindowOf(env, blocks) && env.FirstSlot() <= slot <= env.LastSlot()
    requires bucket == if slot in blocks then blocks[slot] else []
    ensures Scanned(env, slot, bucket, |bucket|) == Below(env, slot + 1)
  {
    forall r | r in env.window && env.window[r].slot == slot ensures r in Scanned(env, slot, bucket, |bucket|) {
      assert Bucketed(env, blocks, env.window[r]);
      var k :| 0 <= k < |bucket| && bucket[k] == env.window[r];
      assert bucket[k].root == r;
    }
  }

  lemma {:induction false} ParentKnown(env: Env, done: set<Root>, allVotes: map<Root, EpochVotes>,
                                       allHeads: set<Root>, b: Block)
    requires env.Valid() && Progress(env, done, allVotes, allHeads) && Next(env, done, b) && b.parent.Some?
    ensures b.parent.value in allVotes <==> ParentProcessed(env, b)
  {
  }

  lemma {:induction false} SkipBlock(env: Env, done: set<Root>, allVotes: map<Root, EpochVotes>, allHeads: set<Root>,
                                     b: Block)
    requires env.Valid() && Progress(env, done, allVotes, allHeads) && b.root !in Participants(env)
    ensures Progress(env, done + {b.root}, allVotes, allHeads)
  {
    assert (done + {b.root}) * Participants(env) == done * Participants(env);
  }

  lemma {:induction false} AddBlock(env: Env, done: set<Root>, allVotes: map<Root, EpochVotes>, allHeads: set<Root>,
                                    b: Block, v: EpochVotes)
    requires env.Valid() && Progress(env, done, allVotes, allHeads) && Next(env, done, b) && b.parent.Some?
    requires b.root in Participants(env) && v == VotesAt(env, b.root)
    ensures Progress(env, done + {b.root}, allVotes[b.root := v], allHeads - {b.parent.value} + {b.root})
  {
    var votes' := allVotes[b.root := v];
    assert votes'.Keys == allVotes.Keys + {b.root} == (done + {b.root}) * Participants(env);
    HeadsStep(env, done, allVotes.Keys, allHeads, b);
  }

  lemma {:induction false} HeadsStep(env: Env, done: set<Root>, among: set<Root>, heads: set<Root>, b: Block)
    requires Next(env, done, b) && among <= done && Heads(env, among, heads) && b.parent.Some?
    ensures Heads(env, among + {b.root}, heads - {b.parent.value} + {b.root})
  {
  }

  class Task {
    const spec: Spec
    var attesterDutyMap: map<nat, map<Root, Duties>>

    constructor (spec: Spec)
      ensures this.spec == spec && attesterDutyMap == map[]
    {
      this.spec := spec;
      attesterDutyMap := map[];
    }

    /** Loads the duties of an epoch when the first block behind a block of an earlier epoch arrives.
        The validator set and the committees come from client requests that may fail. */
    method ProcessBlock(block: Block, parentBlock: Option<Block>, validators: Option<ValidatorSet>,
                        committees: Option<seq<Committee>>, ghost slots: map<Root, nat>)
      returns (loaded: Option<Duties>)
      requires spec.slotsPerEpoch > 0 && DutiesStored(attesterDutyMap, spec.slotsPerEpoch, slots)
      requires parentBlock.Some? ==> parentBlock.value.slot < block.slot && parentBlock.value.root in slots
                                     && slots[parentBlock.value.root] == parentBlock.value.slot
      requires validators.Some? && committees.Some? ==> MembersKnown(committees.value, validators.value)
      modifies `attesterDutyMap
      ensures DutiesStored(attesterDutyMap, spec.slotsPerEpoch, slots)
      ensures loaded.Some? <==>
              && !block.body.Missing? && parentBlock.Some? && validators.Some? && committees.Some?
              && var e := block.slot / spec.slotsPerEpoch;
                 && parentBlock.value.slot / spec.slotsPerEpoch != e
                 && Entry(old(attesterDutyMap), e, parentBlock.value.root) == None
      ensures forall f, r :: Entry(attesterDutyMap, f, r) ==
                if loaded.Some? && f == block.slot / spec.slotsPerEpoch && r == parentBlock.value.root then loaded
                else Entry(old(attesterDutyMap), f, r)
      ensures loaded.Some? ==>
                var active := ActiveSet(validators.value, block.slot / spec.slotsPerEpoch);
                && TableOf(loaded.value.table, committees.value, validators.value)
                && loaded.value.validatorCount == |active|
                && loaded.value.validatorBalance == BalanceSum(active, Balances(validators.value))
    {
      if block.body.Missing? || parentBlock == None {
        return None;
      }
      var epoch := block.slot / spec.slotsPerEpoch;
      var parentRoot := parentBlock.value.root;
      if parentBlock.value.slot / spec.slotsPerEpoch == epoch {
        return None;
      }
      if epoch !in attesterDutyMap {
        attesterDutyMap := attesterDutyMap[epoch := map[]];
      } else if parentRoot in attesterDutyMap[epoch] {
        return None;
      }
      if validators == None || committees == None {
        return None;
      }
      var count, balance := SumActive(validators.value, epoch);
      var table := BuildTable(committees.value, validators.value);
      BuiltTableConsistent(table, committees.value, validators.value);
      EarlierEpoch(parentBlock.value.slot, block.slot, spec.slotsPerEpoch);
      var duties := Duties(count, balance, table);
      attesterDutyMap := attesterDutyMap[epoch := attesterDutyMap[epoch][parentRoot := duties]];
      return Some(duties);
    }

    static method AggregateAttestationVotes(table: DutyTable, activity: set<nat>, slot: nat, committee: nat,
                                            bits: seq<bool>, offset: nat)
      returns (c: Counted, validatorCount: nat)
      ensures c == CountDuties(DutiesOf(table, slot, committee), bits, offset, activity)
      ensures validatorCount == |DutiesOf(table, slot, committee)|
    {
      var ds := DutiesOf(table, slot, committee);
      var amount: nat, count: nat, act := 0, 0, activity;
      for i := 0 to |ds|
        invariant Counted(amount, count, act) == CountDuties(ds[..i], bits, offset, activity)
      {
        assert ds[..i + 1][..i] == ds[..i];
        if BitAt(bits, i + offset) {
          if ds[i].validator in act {
            continue;
          }
          amount := amount + ds[i].balance;
          count := count + 1;
          act := act + {ds[i].validator};
        }
      }
      assert ds[..|ds|] == ds;
      return Counted(amount, count, act), |ds|;
    }

    method CountVotes(table: DutyTable, activity: set<nat>, att: Attestation) returns (c: Counted)
      requires !att.Unreadable?
      ensures c == CountAttestation(spec, table, att, activity)
    {
      var size;
      if att.Electra? {
        c := Counted(0, 0, activity);
        var aggregationBitsOffset := 0;
        for committee := 0 to spec.maxCommittees
          invariant c == CountCommittees(spec, table, att, activity, committee)
          invariant aggregationBitsOffset == SizeBefore(table, att.slot, att.committees, committee)
        {
          if !BitAt(att.committees, committee) {
            continue;
          }
          var offset := if spec.concatBits then aggregationBitsOffset else 0;
          var d;
          d, size := AggregateAttestationVotes(table, c.activity, att.slot, committee, att.bits, offset);
          c := Counted(c.amount + d.amount, c.count + d.count, d.activity);
          aggregationBitsOffset := aggregationBitsOffset + size;
        }
      } else {
        c, size := AggregateAttestationVotes(table, activity, att.slot, att.index, att.bits, 0);
      }
    }

    /** The attestation loop of one block. */
    method AddBlockVotes(ghost env: Env, epoch: nat, base: EpochVotes, b: Block) returns (v: EpochVotes)
      requires env.Valid() && env.spec == spec && env.epoch == epoch && b.parent.Some?
      ensures v == ApplyAttestations(env, base, b, AttestationsOf(b))
    {
      v := base;
      var atts := AttestationsOf(b);
      var isNextEpoch := b.slot - epoch * spec.slotsPerEpoch >= spec.slotsPerEpoch;
      for i := 0 to |atts|
        invariant v == ApplyAttestations(env, base, b, atts[..i])
      {
        assert atts[..i + 1][..i] == atts[..i];
        var att := atts[i];
        if att.Unreadable? || att.slot / spec.slotsPerEpoch != epoch {
          continue;
        }
        var c := CountVotes(v.duties.table, v.activity, att);
        v := Record(v, c, isNextEpoch, att.targetRoot == v.targetRoot, att.beaconRoot == b.parent.value);
      }
      assert atts[..|atts|] == atts;
    }

    /** The body of the inner loop: one block of the pass. */
    method ScanBlock(ghost env: Env, ghost done: set<Root>, epoch: nat, duties: map<Root, Duties>,
                     allVotes: map<Root, EpochVotes>, allHeads: set<Root>, b: Block)
      returns (votes': map<Root, EpochVotes>, heads': set<Root>)
      requires env.Valid() && env.spec == spec && env.epoch == epoch && env.duties == duties
      requires Progress(env, done, allVotes, allHeads) && Next(env, done, b)
      ensures Progress(env, done + {b.root}, votes', heads')
    {
      votes', heads' := allVotes, allHeads;
      if b.body.Missing? || b.parent == None {
        SkipBlock(env, done, allVotes, allHeads, b);
        return;
      }
      var parentRoot := b.parent.value;
      ParentKnown(env, done, allVotes, allHeads, b);
      var votes;
      if parentRoot in allVotes {
        votes := allVotes[parentRoot].(headRoot := b.root);
      } else {
        if parentRoot !in duties {
          SkipBlock(env, done, allVotes, allHeads, b);
          return;
        }
        var targetRoot := if b.slot == epoch * spec.slotsPerEpoch then b.root else parentRoot;
        votes := EpochVotes(b.root, parentRoot, targetRoot, duties[parentRoot], EMPTY, EMPTY, {});
      }
      VotesStep(env, b);
      votes := AddBlockVotes(env, epoch, votes, b);
      AddBlock(env, done, allVotes, allHeads, b, votes);
      votes' := allVotes[b.root := votes];
      heads' := allHeads - {parentRoot} + {b.root};
    }

    /** All blocks of one slot. */
    method ScanSlot(ghost env: Env, blocks: map<nat, seq<Block>>, epoch: nat, duties: map<Root, Duties>, slot: nat,
                    allVotes: map<Root, EpochVotes>, allHeads: set<Root>)
      returns (votes': map<Root, EpochVotes>, heads': set<Root>)
      requires env.Valid() && env.spec == spec && env.epoch == epoch && env.duties == duties
      requires WindowOf(env, blocks) && env.FirstSlot() <= slot <= env.LastSlot()
      requires Progress(env, Below(env, slot), allVotes, allHeads)
      ensures Progress(env, Below(env, slot + 1), votes', heads')
    {
      votes', heads' := allVotes, allHeads;
      var bucket := if slot in blocks then blocks[slot] else [];
      for i := 0 to |bucket|
        invariant Progress(env, Scanned(env, slot, bucket, i), votes', heads')
      {
        BucketNext(env, blocks, slot, bucket, i);
        votes', heads' := ScanBlock(env, Scanned(env, slot, bucket, i), epoch, duties, votes', heads', bucket[i]);
      }
      BucketDone(env, blocks, slot, bucket);
    }

    method ScanWindow(ghost env: Env, blocks: map<nat, seq<Block>>, epoch: nat)
      returns (allVotes: map<Root, EpochVotes>, allHeads: set<Root>)
      requires env.Valid() && env.spec == spec && env.epoch == epoch && WindowOf(env, blocks)
      requires env.duties == if epoch in attesterDutyMap then attesterDutyMap[epoch] else map[]
      ensures forall r :: r in allHeads <==> IsHead(env, r)
      ensures allHeads <= allVotes.Keys == Participants(env)
      ensures forall r :: r in allVotes ==> allVotes[r] == VotesAt(env, r)
    {
      var firstSlot := epoch * spec.slotsPerEpoch;
      var lastSlot := firstSlot + 2 * spec.slotsPerEpoch;
      var duties := if epoch in attesterDutyMap then attesterDutyMap[epoch] else map[];
      allVotes, allHeads := map[], {};
      assert forall r :: r in env.window ==> Bucketed(env, blocks, env.window[r]);
      assert Below(env, firstSlot) == {};
      for slot := firstSlot to lastSlot + 1
        invariant Progress(env, Below(env, slot), allVotes, allHeads)
      {
        allVotes, allHeads := ScanSlot(env, blocks, epoch, duties, slot, allVotes, allHeads);
      }
      assert Below(env, lastSlot + 1) == env.window.Keys;
      HeadsAtEnd(env, Below(env, lastSlot + 1), allVotes, allHeads);
    }

    /** The pass over the epoch and the next one. The result lists, in any order, the votes of every
        head of the participating block tree once, each the plain fold over the head's own chain. With
        duties as `ProcessBlock` stores them, all figures mean what they say. */
    method AggregateEpochVotes(ghost env: Env, blocks: map<nat, seq<Block>>, epoch: nat, ghost slots: map<Root, nat>)
      returns (votes: seq<EpochVotes>)
      requires env.Valid() && env.spec == spec && env.epoch == epoch && WindowOf(env, blocks)
      requires env.duties == if epoch in attesterDutyMap then attesterDutyMap[epoch] else map[]
      ensures forall i :: 0 <= i < |votes| ==>
              IsHead(env, votes[i].headRoot) && votes[i] == VotesAt(env, votes[i].headRoot)
      ensures forall r :: IsHead(env, r) ==> VotesAt(env, r) in votes
      ensures forall i, j :: 0 <= i < j < |votes| ==> votes[i].headRoot != votes[j].headRoot
      ensures DutiesStored(attesterDutyMap, spec.slotsPerEpoch, slots) ==>
                forall i :: 0 <= i < |votes| ==> FiguresMean(env, votes[i].headRoot, votes[i])
    {
      if DutiesStored(attesterDutyMap, spec.slotsPerEpoch, slots) {
        forall r | IsHead(env, r) ensures FiguresMean(env, r, VotesAt(env, r)) {
          StoredFiguresMean(env, attesterDutyMap, slots, r);
        }
      }
      var allVotes, allHeads := ScanWindow(env, blocks, epoch);
      forall r | r in allHeads ensures allVotes[r].headRoot == r {
        HeadRootIsBlock(env, r);
      }
      votes := Collect(allVotes, allHeads);
    }

    static method Collect(allVotes: map<Root, EpochVotes>, allHeads: set<Root>) returns (votes: seq<EpochVotes>)
      requires allHeads <= allVotes.Keys && forall r :: r in allHeads ==> allVotes[r].headRoot == r
      ensures forall i :: 0 <= i < |votes| ==> votes[i].headRoot in allHeads && votes[i] == allVotes[votes[i].headRoot]
      ensures forall r :: r in allHeads ==> allVotes[r] in votes
      ensures forall i, j :: 0 <= i < j < |votes| ==> votes[i].headRoot != votes[j].headRoot
    {
      votes := [];
      var rest := allHeads;
      while rest != {}
        invariant rest <= allHeads
        invariant forall i :: 0 <= i < |votes| ==>
                    && votes[i].headRoot in allHeads && votes[i].headRoot !in rest
                    && votes[i] == allVotes[votes[i].headRoot]
        invariant forall r :: r in allHeads && r !in rest ==> allVotes[r] in votes
        invariant forall i, j :: 0 <= i < j < |votes| ==> votes[i].headRoot != votes[j].headRoot
        decreases |rest|
      {
        var root :| root in rest;
        rest := rest - {root};
        votes := votes + [allVotes[root]];
      }
    }
  }

  /** The votes reported for block `r` count distinct validators on duty with their balances, those with a
      vote on the chain of `r`, and each figure those whose first vote on it qualifies. */
  ghost predicate FiguresMean(env: Env, r: Root, v: EpochVotes) {
    && env.Valid() && r in Participants(env)
    && exists bal: map<nat, nat> ::
         && Consistent(v.duties.table, bal) && Sound(v, bal)
         && Meaning(env, v, Events(Chain(env, env.window[r])), bal)
         && VotesMean(env, v, Chain(env, env.window[r]), bal)
  }

  lemma {:induction false} StoredFiguresMean(env: Env, dutyMap: map<nat, map<Root, Duties>>,
                                             slots: map<Root, nat>, r: Root)
    requires env.Valid() && r in Participants(env)
    requires env.duties == if env.epoch in dutyMap then dutyMap[env.epoch] else map[]
    requires DutiesStored(dutyMap, env.spec.slotsPerEpoch, slots)
    ensures FiguresMean(env, r, VotesAt(env, r))
  {
    var b := env.window[r];
    ChainFoldable(env, b);
    var c := Chain(env, b);
    var root := c[0].parent.value;
    assert root in env.duties && env.epoch in dutyMap && root in dutyMap[env.epoch];
    assert root in slots;
    var bal: map<nat, nat> :| Consistent(env.duties[root].table, bal);
    FoldSound(env, c, bal);
    FoldMeaning(env, c, bal);
    ChainVotesMean(env, c, bal);
    assert VotesAt(env, r) == FoldChain(env, c);
  }

  // ----- what the pass reads of the block cache -----

  /** A block of the cached tree and its body, if that was loaded. */
  function Snapshot(t: Tree, bodies: map<Root, Body>, r: Root): Block
    requires r in t
  {
    Block(r, t[r].slot, t[r].parent, if r in bodies then bodies[r] else Missing)
  }

  /** The slots of the epoch and the next one, and one more. */
  predicate Scans(env: Env, slot: nat) {
    env.epoch * env.spec.slotsPerEpoch <= slot <= (env.epoch + 2) * env.spec.slotsPerEpoch
  }

  lemma {:induction false} ScannedSlots(env: Env, slot: nat)
    ensures Scans(env, slot) <==> env.FirstSlot() <= slot <= env.LastSlot()
  {
    var n := env.spec.slotsPerEpoch;
    assert (env.epoch + 2) * n == env.epoch * n + 2 * n;
  }

  /** The buckets of the slot index, block by block. */
  ghost predicate ReadsBuckets(blocks: map<nat, seq<Block>>, slots: Cache.SlotIndex, t: Tree, bodies: map<Root, Body>) {
    && (forall s :: s in blocks ==> s in slots && |blocks[s]| == |slots[s]|)
    && (forall s :: s in slots ==> s in blocks)
    && (forall s, i :: s in blocks && 0 <= i < |blocks[s]| ==>
          slots[s][i].root in t && blocks[s][i] == Snapshot(t, bodies, slots[s][i].root))
  }

  /** The blocks of the scanned slots by root. */
  ghost predicate ReadsWindow(env: Env, t: Tree, bodies: map<Root, Body>) {
    && (forall r :: r in env.window ==> r in t && Scans(env, t[r].slot) && env.window[r] == Snapshot(t, bodies, r))
    && (forall r :: r in t && Scans(env, t[r].slot) ==> r in env.window)
  }

  /** What the pass reads of a valid cache meets its precondition. */
  lemma {:induction false} CacheGivesWindow(env: Env, blocks: map<nat, seq<Block>>, cache: Cache.BlockCache,
                                            bodies: map<Root, Body>)
    requires cache.Valid() && SlotsIncrease(cache.View())
    requires ReadsBuckets(blocks, cache.blockSlotMap, cache.View(), bodies) && ReadsWindow(env, cache.View(), bodies)
    ensures WindowOf(env, blocks)
  {
    var t, roots, slots := cache.View(), cache.blockRootMap, cache.blockSlotMap;
    forall s: nat ensures Scans(env, s) <==> env.FirstSlot() <= s <= env.LastSlot() {
      ScannedSlots(env, s);
    }
    forall r | r in env.window ensures Bucketed(env, blocks, env.window[r]) {
      BucketOfBlock(env, blocks, roots, slots, t, bodies, r);
    }
    forall s, i | s in blocks && 0 <= i < |blocks[s]|
      ensures blocks[s][i].slot == s && blocks[s][i].root in t && blocks[s][i] == Snapshot(t, bodies, blocks[s][i].root)
    {
      var b := slots[s][i];
      assert b in slots[s] && Cache.InRoots(roots, b);
    }
    forall s, i, j | s in blocks && 0 <= i < j < |blocks[s]| ensures blocks[s][i].root != blocks[s][j].root {
      var b, c := slots[s][i], slots[s][j];
      assert b in slots[s] && c in slots[s] && Cache.InRoots(roots, b) && Cache.InRoots(roots, c) && b != c;
    }
  }

  lemma {:induction false} BucketOfBlock(env: Env, blocks: map<nat, seq<Block>>, roots: Cache.RootIndex,
                                         slots: Cache.SlotIndex, t: Tree, bodies: map<Root, Body>, r: Root)
    requires Cache.SameBlocks(roots, slots) && ReadsBuckets(blocks, slots, t, bodies) && ReadsWindow(env, t, bodies)
    requires r in env.window && r in roots && t[r].slot == roots[r].slot
    ensures Bucketed(env, blocks, env.window[r])
  {
    var b := roots[r];
    assert Cache.InBucket(slots, b);
    var i :| 0 <= i < |slots[b.slot]| && slots[b.slot][i] == b;
    assert blocks[b.slot][i] == Snapshot(t, bodies, r);
    ScannedSlots(env, b.slot);
  }

  lemma {:induction false} HeadsAtEnd(env: Env, done: set<Root>, allVotes: map<Root, EpochVotes>, allHeads: set<Root>)
    requires env.Valid() && Progress(env, done, allVotes, allHeads) && done == env.window.Keys
    ensures allVotes.Keys == Participants(env)
    ensures forall r :: r in allHeads <==> IsHead(env, r)
  {
    assert done * Participants(env) == Participants(env);
  }
}
