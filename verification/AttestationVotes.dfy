/**
Vote statistics of the `check_consensus_attestation_stats` task. One pass over the slots of an
epoch and the next one carries, for every block of a forking tree, the votes collected on its own
chain: each block starts from a copy of its parent's votes.
*/
module AttestationVotes {
  import opened BlockTree

  datatype Duty = Duty(validator: nat, balance: nat)

  /** Committee members by (slot, committee index). */
  type DutyTable = map<(nat, nat), seq<Duty>>

  datatype Duties = Duties(validatorCount: nat, validatorBalance: nat, table: DutyTable)

  /** `Unreadable` stands for an attestation one of whose accessors fails. */
  datatype Attestation =
    | Unreadable
    | Legacy(slot: nat, beaconRoot: Root, targetRoot: Root, bits: seq<bool>, index: nat)
    | Electra(slot: nat, beaconRoot: Root, targetRoot: Root, bits: seq<bool>, committees: seq<bool>)

  datatype Body = Missing | Broken | Attestations(list: seq<Attestation>)

  datatype Block = Block(root: Root, slot: nat, parent: Option<Root>, body: Body)

  datatype Tally = Tally(targetAmount: nat, targetCount: nat, headAmount: nat, headCount: nat,
                         totalAmount: nat, totalCount: nat)

  datatype EpochVotes = EpochVotes(headRoot: Root, dependentRoot: Root, targetRoot: Root, duties: Duties,
                                   current: Tally, next: Tally, activity: set<nat>)

  /** `concatBits` selects where the bits of the second and later committees of an Electra
      attestation are read: behind the bits of the earlier committees as EIP-7549 lays them out,
      or from bit 0 as assertoor does. */
  datatype Spec = Spec(slotsPerEpoch: nat, maxCommittees: nat, concatBits: bool)

  /** What one aggregation reads: `window` holds the cached blocks of the scanned slots. */
  datatype Env = Env(spec: Spec, epoch: nat, duties: map<Root, Duties>, window: map<Root, Block>) {
    ghost predicate Valid() { spec.slotsPerEpoch > 0 }
    function FirstSlot(): nat { epoch * spec.slotsPerEpoch }
    predicate InNextEpoch(slot: nat) { slot - FirstSlot() >= spec.slotsPerEpoch }
    function LastSlot(): nat { FirstSlot() + 2 * spec.slotsPerEpoch }
  }

  const EMPTY := Tally(0, 0, 0, 0, 0, 0)

  // ----- counting one attestation -----

  datatype Counted = Counted(amount: nat, count: nat, activity: set<nat>)

  predicate BitAt(bits: seq<bool>, i: nat) {
    i < |bits| && bits[i]
  }

  function DutiesOf(table: DutyTable, slot: nat, committee: nat): seq<Duty> {
    if (slot, committee) in table then table[(slot, committee)] else []
  }

  /** Counts the members whose bit is set and who were not counted before. */
  function CountDuties(ds: seq<Duty>, bits: seq<bool>, offset: nat, activity: set<nat>): Counted {
    if ds == [] then Counted(0, 0, activity)
    else
      var n := |ds| - 1;
      var c := CountDuties(ds[..n], bits, offset, activity);
      if BitAt(bits, n + offset) && ds[n].validator !in c.activity
      then Counted(c.amount + ds[n].balance, c.count + 1, c.activity + {ds[n].validator})
      else c
  }

  /** Members of the set committees below `n`: the length of the bits in front of committee `n`. */
  function SizeBefore(table: DutyTable, slot: nat, committees: seq<bool>, n: nat): nat {
    if n == 0 then 0
    else SizeBefore(table, slot, committees, n - 1)
         + if BitAt(committees, n - 1) then |DutiesOf(table, slot, n - 1)| else 0
  }

  function BitOffset(spec: Spec, table: DutyTable, att: Attestation, committee: nat): nat {
    if att.Electra? && spec.concatBits then SizeBefore(table, att.slot, att.committees, committee) else 0
  }

  /** The first `n` committees of an Electra attestation. */
  function CountCommittees(spec: Spec, table: DutyTable, att: Attestation, activity: set<nat>, n: nat): Counted
    requires att.Electra?
  {
    if n == 0 then Counted(0, 0, activity)
    else
      var c := CountCommittees(spec, table, att, activity, n - 1);
      if BitAt(att.committees, n - 1) then
        var offset := BitOffset(spec, table, att, n - 1);
        var d := CountDuties(DutiesOf(table, att.slot, n - 1), att.bits, offset, c.activity);
        Counted(c.amount + d.amount, c.count + d.count, d.activity)
      else c
  }

  function CountAttestation(spec: Spec, table: DutyTable, att: Attestation, activity: set<nat>): Counted
    requires !att.Unreadable?
  {
    if att.Electra? then CountCommittees(spec, table, att, activity, spec.maxCommittees)
    else CountDuties(DutiesOf(table, att.slot, att.index), att.bits, 0, activity)
  }

  predicate Relevant(env: Env, att: Attestation)
    requires env.Valid()
  {
    !att.Unreadable? && att.slot / env.spec.slotsPerEpoch == env.epoch
  }

  function AddVotes(t: Tally, amount: nat, count: nat, target: bool, head: bool): Tally {
    var t1 := if target then t.(targetAmount := t.targetAmount + amount, targetCount := t.targetCount + count) else t;
    var t2 := if head then t1.(headAmount := t1.headAmount + amount, headCount := t1.headCount + count) else t1;
    t2.(totalAmount := t2.totalAmount + amount, totalCount := t2.totalCount + count)
  }

  function Record(v: EpochVotes, c: Counted, isNext: bool, target: bool, head: bool): EpochVotes {
    if isNext then v.(next := AddVotes(v.next, c.amount, c.count, target, head), activity := c.activity)
    else v.(current := AddVotes(v.current, c.amount, c.count, target, head), activity := c.activity)
  }

  function ApplyAttestation(env: Env, v: EpochVotes, b: Block, att: Attestation): EpochVotes
    requires env.Valid() && b.parent.Some?
  {
    if !Relevant(env, att) then v
    else
      var c := CountAttestation(env.spec, v.duties.table, att, v.activity);
      Record(v, c, env.InNextEpoch(b.slot), att.targetRoot == v.targetRoot, att.beaconRoot == b.parent.value)
  }

  function ApplyAttestations(env: Env, v: EpochVotes, b: Block, atts: seq<Attestation>): EpochVotes
    requires env.Valid() && b.parent.Some?
  {
    if atts == [] then v
    else ApplyAttestation(env, ApplyAttestations(env, v, b, atts[..|atts| - 1]), b, atts[|atts| - 1])
  }

  function AttestationsOf(b: Block): seq<Attestation> {
    if b.body.Attestations? then b.body.list else []
  }

  function ApplyBlock(env: Env, v: EpochVotes, b: Block): EpochVotes
    requires env.Valid() && b.parent.Some?
  {
    ApplyAttestations(env, v.(headRoot := b.root), b, AttestationsOf(b))
  }

  // ----- the reference: a plain fold over the chain of a block -----

  ghost predicate ParentProcessed(env: Env, b: Block)
    decreases b.slot, 0
  {
    && b.parent.Some? && b.parent.value in env.window && env.window[b.parent.value].slot < b.slot
    && Processed(env, env.window[b.parent.value])
  }

  /** A block takes part when its body and header are there and either its parent takes part or
      the duties of the epoch are known for its parent. */
  ghost predicate Processed(env: Env, b: Block)
    decreases b.slot, 1
  {
    && !b.body.Missing? && b.parent.Some?
    && (ParentProcessed(env, b) || b.parent.value in env.duties)
  }

  /** The participating ancestors of a block, oldest first, ending with the block. */
  ghost function Chain(env: Env, b: Block): (c: seq<Block>)
    requires Processed(env, b)
    ensures c != [] && c[|c| - 1] == b
    decreases b.slot
  {
    if ParentProcessed(env, b) then Chain(env, env.window[b.parent.value]) + [b] else [b]
  }

  function StartVotes(env: Env, b: Block): EpochVotes
    requires b.parent.Some? && b.parent.value in env.duties
  {
    EpochVotes(b.root, b.parent.value, if b.slot == env.FirstSlot() then b.root else b.parent.value,
               env.duties[b.parent.value], EMPTY, EMPTY, {})
  }

  ghost predicate Foldable(env: Env, c: seq<Block>) {
    && env.Valid() && c != [] && c[0].parent.Some? && c[0].parent.value in env.duties
    && forall i :: 0 <= i < |c| ==> c[i].parent.Some?
  }

  ghost function FoldChain(env: Env, c: seq<Block>): EpochVotes
    requires Foldable(env, c)
  {
    var n := |c| - 1;
    if n == 0 then ApplyBlock(env, StartVotes(env, c[0]), c[0])
    else ApplyBlock(env, FoldChain(env, c[..n]), c[n])
  }

  lemma {:induction false} ChainFoldable(env: Env, b: Block)
    requires env.Valid() && Processed(env, b)
    ensures Foldable(env, Chain(env, b))
    decreases b.slot
  {
    if ParentProcessed(env, b) {
      ChainFoldable(env, env.window[b.parent.value]);
    }
  }

  ghost function VotesOf(env: Env, b: Block): EpochVotes
    requires env.Valid() && Processed(env, b)
  {
    ChainFoldable(env, b);
    FoldChain(env, Chain(env, b))
  }

  /** What the pass computes for a block from its parent's votes is the fold over its own chain. */
  lemma {:induction false} VotesStep(env: Env, b: Block)
    requires env.Valid() && Processed(env, b)
    ensures ParentProcessed(env, b) ==> VotesOf(env, b) == ApplyBlock(env, VotesOf(env, env.window[b.parent.value]), b)
    ensures !ParentProcessed(env, b) ==> VotesOf(env, b) == ApplyBlock(env, StartVotes(env, b), b)
  {
  }

  ghost function Participants(env: Env): set<Root> {
    set r | r in env.window && Processed(env, env.window[r])
  }

  ghost function VotesAt(env: Env, r: Root): EpochVotes
    requires env.Valid() && r in Participants(env)
  {
    VotesOf(env, env.window[r])
  }

  /** No block of the set has `r` as parent. */
  ghost predicate Childless(env: Env, among: set<Root>, r: Root) {
    forall s :: s in among && s in env.window ==> env.window[s].parent != Some(r)
  }

  /** A participating block without participating child. */
  ghost predicate IsHead(env: Env, r: Root) {
    r in Participants(env) && Childless(env, Participants(env), r)
  }

  // ----- sums of balances -----

  ghost function Pick(s: set<nat>): (v: nat)
    requires s != {}
    ensures v in s
  {
    var v :| v in s; v
  }

  ghost function BalanceSum(s: set<nat>, bal: map<nat, nat>): nat
    requires s <= bal.Keys
  {
    if s == {} then 0 else var v := Pick(s); bal[v] + BalanceSum(s - {v}, bal)
  }

  lemma {:induction false} BalanceSumAdds(s: set<nat>, bal: map<nat, nat>, x: nat)
    requires x !in s && s + {x} <= bal.Keys
    ensures BalanceSum(s + {x}, bal) == BalanceSum(s, bal) + bal[x]
    decreases |s|
  {
    var v := Pick(s + {x});
    if v == x {
      assert s + {x} - {v} == s;
    } else {
      assert s + {x} - {v} == s - {v} + {x};
      BalanceSumAdds(s - {v}, bal, x);
      BalanceSumAdds(s - {v}, bal, v);
      assert s - {v} + {v} == s;
    }
  }

  lemma {:induction false} BalanceSumMonotone(s: set<nat>, u: set<nat>, bal: map<nat, nat>)
    requires s <= u <= bal.Keys
    ensures BalanceSum(s, bal) <= BalanceSum(u, bal)
    decreases |u|
  {
    if s != u {
      var x :| x in u && x !in s;
      BalanceSumMonotone(s, u - {x}, bal);
      BalanceSumAdds(u - {x}, bal, x);
      assert u - {x} + {x} == u;
    }
  }

  // ----- every validator once per chain -----

  /** Every duty carries the one balance of its validator. */
  ghost predicate Consistent(table: DutyTable, bal: map<nat, nat>) {
    forall k, i :: k in table && 0 <= i < |table[k]|
      ==> table[k][i].validator in bal && bal[table[k][i].validator] == table[k][i].balance
  }

  ghost predicate OnDuty(table: DutyTable, v: nat) {
    exists k, i :: k in table && 0 <= i < |table[k]| && table[k][i].validator == v
  }

  /** The bit of a member of the committee is set for validator `v`. */
  ghost predicate BitFor(ds: seq<Duty>, bits: seq<bool>, offset: nat, v: nat) {
    exists i :: 0 <= i < |ds| && ds[i].validator == v && BitAt(bits, i + offset)
  }

  ghost predicate CommitteeUsed(spec: Spec, att: Attestation, committee: nat)
    requires !att.Unreadable?
  {
    if att.Electra? then committee < spec.maxCommittees && BitAt(att.committees, committee) else committee == att.index
  }

  /** The attestation carries a vote of validator `v`. */
  ghost predicate HasVoteOf(spec: Spec, table: DutyTable, att: Attestation, v: nat)
    requires !att.Unreadable?
  {
    exists k :: CommitteeUsed(spec, att, k)
      && BitFor(DutiesOf(table, att.slot, k), att.bits, BitOffset(spec, table, att, k), v)
  }

  /** Counting adds each new validator once, with its balance. */
  ghost predicate AddsOnce(act: set<nat>, c: Counted, bal: map<nat, nat>) {
    && act <= c.activity <= bal.Keys
    && c.count == |c.activity| - |act|
    && c.amount == BalanceSum(c.activity, bal) - BalanceSum(act, bal)
  }

  lemma {:induction false} CountDutiesOnce(ds: seq<Duty>, bits: seq<bool>, offset: nat, act: set<nat>,
                                           bal: map<nat, nat>)
    requires act <= bal.Keys
    requires forall i :: 0 <= i < |ds| ==> ds[i].validator in bal && bal[ds[i].validator] == ds[i].balance
    ensures AddsOnce(act, CountDuties(ds, bits, offset, act), bal)
    decreases |ds|
  {
    if ds != [] {
      var n := |ds| - 1;
      CountDutiesOnce(ds[..n], bits, offset, act, bal);
      var c := CountDuties(ds[..n], bits, offset, act);
      if BitAt(bits, n + offset) && ds[n].validator !in c.activity {
        BalanceSumAdds(c.activity, bal, ds[n].validator);
      }
    }
  }

  lemma {:induction false} CountDutiesVoters(ds: seq<Duty>, bits: seq<bool>, offset: nat, act: set<nat>, v: nat)
    ensures v in CountDuties(ds, bits, offset, act).activity <==> v in act || BitFor(ds, bits, offset, v)
    decreases |ds|
  {
    if ds != [] {
      var n := |ds| - 1;
      CountDutiesVoters(ds[..n], bits, offset, act, v);
      assert BitFor(ds, bits, offset, v) <==>
        BitFor(ds[..n], bits, offset, v) || (ds[n].validator == v && BitAt(bits, n + offset)) by {
        if BitFor(ds[..n], bits, offset, v) {
          var i :| 0 <= i < n && ds[..n][i].validator == v && BitAt(bits, i + offset);
          assert ds[i].validator == v;
        }
        if i :| 0 <= i < |ds| && ds[i].validator == v && BitAt(bits, i + offset) {
          assert i < n ==> ds[..n][i] == ds[i];
        }
      }
    }
  }

  lemma {:induction false} CountAttestationOnce(spec: Spec, table: DutyTable, att: Attestation, act: set<nat>,
                                                bal: map<nat, nat>, n: nat)
    requires !att.Unreadable? && act <= bal.Keys && Consistent(table, bal)
    ensures att.Electra? ==> AddsOnce(act, CountCommittees(spec, table, att, act, n), bal)
    ensures att.Legacy? ==> AddsOnce(act, CountAttestation(spec, table, att, act), bal)
    decreases n
  {
    if att.Legacy? {
      CountDutiesOnce(DutiesOf(table, att.slot, att.index), att.bits, 0, act, bal);
    } else if n > 0 {
      CountAttestationOnce(spec, table, att, act, bal, n - 1);
      var c := CountCommittees(spec, table, att, act, n - 1);
      CountDutiesOnce(DutiesOf(table, att.slot, n - 1), att.bits, BitOffset(spec, table, att, n - 1), c.activity, bal);
    }
  }

  lemma {:induction false} CountCommitteesVoters(spec: Spec, table: DutyTable, att: Attestation, act: set<nat>,
                                                 v: nat, n: nat)
    requires att.Electra?
    ensures v in CountCommittees(spec, table, att, act, n).activity <==>
            v in act || (exists k ::
                           0 <= k < n && BitAt(att.committees, k) &&
                           BitFor(DutiesOf(table, att.slot, k), att.bits, BitOffset(spec, table, att, k), v))
    decreases n
  {
    if n > 0 {
      CountCommitteesVoters(spec, table, att, act, v, n - 1);
      var c := CountCommittees(spec, table, att, act, n - 1);
      CountDutiesVoters(DutiesOf(table, att.slot, n - 1), att.bits, BitOffset(spec, table, att, n - 1), c.activity, v);
    }
  }

  lemma {:induction false} CountAttestationVoters(spec: Spec, table: DutyTable, att: Attestation, act: set<nat>, v: nat)
    requires !att.Unreadable?
    ensures v in CountAttestation(spec, table, att, act).activity <==> v in act || HasVoteOf(spec, table, att, v)
  {
    if att.Electra? {
      CountCommitteesVoters(spec, table, att, act, v, spec.maxCommittees);
      assert forall k :: 0 <= k < spec.maxCommittees && BitAt(att.committees, k) <==>
             k >= 0 && CommitteeUsed(spec, att, k);
    } else {
      CountDutiesVoters(DutiesOf(table, att.slot, att.index), att.bits, 0, act, v);
      assert CommitteeUsed(spec, att, att.index);
    }
  }

  ghost predicate Bounded(t: Tally) {
    && t.targetAmount <= t.totalAmount && t.targetCount <= t.totalCount
    && t.headAmount <= t.totalAmount && t.headCount <= t.totalCount
  }

  /** The statistics promise: counts are numbers of distinct validators, amounts are sums of their
      balances, and target and head votes are part of the total. */
  ghost predicate Sound(v: EpochVotes, bal: map<nat, nat>) {
    && v.activity <= bal.Keys
    && v.current.totalCount + v.next.totalCount == |v.activity|
    && v.current.totalAmount + v.next.totalAmount == BalanceSum(v.activity, bal)
    && Bounded(v.current) && Bounded(v.next)
  }

  ghost predicate SameChain(v: EpochVotes, w: EpochVotes) {
    && w.duties == v.duties && w.targetRoot == v.targetRoot
    && w.headRoot == v.headRoot && w.dependentRoot == v.dependentRoot
  }

  lemma {:induction false} RecordKeepsSound(v: EpochVotes, c: Counted, isNext: bool, target: bool, head: bool,
                                            bal: map<nat, nat>)
    requires Sound(v, bal) && AddsOnce(v.activity, c, bal)
    ensures Sound(Record(v, c, isNext, target, head), bal)
  {
  }

  lemma {:induction false} AttestationKeepsSound(env: Env, v: EpochVotes, b: Block, att: Attestation,
                                                 bal: map<nat, nat>)
    requires env.Valid() && b.parent.Some? && Sound(v, bal) && Consistent(v.duties.table, bal)
    ensures Sound(ApplyAttestation(env, v, b, att), bal) && SameChain(v, ApplyAttestation(env, v, b, att))
  {
    if Relevant(env, att) {
      CountAttestationOnce(env.spec, v.duties.table, att, v.activity, bal, env.spec.maxCommittees);
      var c := CountAttestation(env.spec, v.duties.table, att, v.activity);
      RecordKeepsSound(v, c, env.InNextEpoch(b.slot), att.targetRoot == v.targetRoot,
                       att.beaconRoot == b.parent.value, bal);
    }
  }

  lemma {:induction false} ApplyKeepsSound(env: Env, v: EpochVotes, b: Block, atts: seq<Attestation>,
                                           bal: map<nat, nat>)
    requires env.Valid() && b.parent.Some? && Sound(v, bal) && Consistent(v.duties.table, bal)
    ensures Sound(ApplyAttestations(env, v, b, atts), bal) && SameChain(v, ApplyAttestations(env, v, b, atts))
    decreases |atts|
  {
    if atts != [] {
      var n := |atts| - 1;
      ApplyKeepsSound(env, v, b, atts[..n], bal);
      AttestationKeepsSound(env, ApplyAttestations(env, v, b, atts[..n]), b, atts[n], bal);
    }
  }

  /** For every chain: the statistics are sound for the duties of its dependent root, and no more
      is counted than the balances of the validators on duty. */
  lemma {:induction false} FoldSound(env: Env, c: seq<Block>, bal: map<nat, nat>)
    requires Foldable(env, c) && Consistent(env.duties[c[0].parent.value].table, bal)
    ensures var v := FoldChain(env, c);
            && Sound(v, bal)
            && v.headRoot == c[|c| - 1].root && v.dependentRoot == c[0].parent.value
            && v.duties == env.duties[c[0].parent.value] && v.targetRoot == StartVotes(env, c[0]).targetRoot
    decreases |c|
  {
    var n := |c| - 1;
    if n == 0 {
      var v := StartVotes(env, c[0]);
      assert BalanceSum({}, bal) == 0;
      ApplyKeepsSound(env, v.(headRoot := c[0].root), c[0], AttestationsOf(c[0]), bal);
    } else {
      assert c[..n][0] == c[0];
      FoldSound(env, c[..n], bal);
      ApplyKeepsSound(env, FoldChain(env, c[..n]).(headRoot := c[n].root), c[n], AttestationsOf(c[n]), bal);
    }
  }

  /** What is counted on a chain never exceeds the balances of the validators on duty. */
  lemma {:induction false} TotalWithinDuties(env: Env, c: seq<Block>, bal: map<nat, nat>, onDuty: set<nat>)
    requires Foldable(env, c) && onDuty <= bal.Keys
    requires var table := env.duties[c[0].parent.value].table;
             Consistent(table, bal) && forall v :: OnDuty(table, v) ==> v in onDuty
    ensures var v := FoldChain(env, c);
            && v.current.totalAmount + v.next.totalAmount <= BalanceSum(onDuty, bal)
            && v.current.totalCount + v.next.totalCount <= |onDuty|
  {
    FoldSound(env, c, bal);
    FoldMeaning(env, c, bal);
    var table := env.duties[c[0].parent.value].table;
    var act := FoldChain(env, c).activity;
    forall v | v in act ensures v in onDuty {
      FirstVoteIff(env, table, Events(c), v);
      var e := FirstVote(env, table, Events(c), v).value;
      VoterOnDuty(env.spec, table, e.att, v);
    }
    BalanceSumMonotone(act, onDuty, bal);
    SubsetSize(act, onDuty);
  }

  lemma {:induction false} VoterOnDuty(spec: Spec, table: DutyTable, att: Attestation, v: nat)
    requires !att.Unreadable? && HasVoteOf(spec, table, att, v)
    ensures OnDuty(table, v)
  {
  }

  lemma {:induction false} SubsetSize(s: set<nat>, u: set<nat>)
    requires s <= u
    ensures |s| <= |u|
  {
    assert u == s + (u - s);
  }

  // ----- the target root -----

  ghost function Roots(c: seq<Block>): (rs: seq<Root>)
    ensures |rs| == |c| && forall i :: 0 <= i < |c| ==> rs[i] == c[i].root
  {
    seq(|c|, i requires 0 <= i < |c| => c[i].root)
  }

  /** The slots of the chain ascend, from a dependent root in front of the epoch. */
  ghost predicate SlotsKnown(env: Env, slots: map<Root, nat>) {
    && (forall r :: r in env.window ==>
          env.window[r].root == r && r in slots && slots[r] == env.window[r].slot >= env.FirstSlot())
    && (forall r :: r in env.duties ==> r in slots && slots[r] < env.FirstSlot())
  }

  /** The last root of an ascending chain whose slot is not after `s`: the block root at slot `s`
      of the state of that chain. */
  ghost predicate IsBlockRootAt(chain: seq<Root>, slots: map<Root, nat>, s: nat, r: Root)
    requires forall i :: 0 <= i < |chain| ==> chain[i] in slots
  {
    exists k :: 0 <= k < |chain| && chain[k] == r && slots[r] <= s
      && forall j :: k < j < |chain| ==> slots[chain[j]] > s
  }

  lemma {:induction false} ChainInWindow(env: Env, r: Root)
    requires r in env.window && Processed(env, env.window[r])
    ensures var c := Chain(env, env.window[r]);
            && (forall i :: 0 <= i < |c| ==> exists q :: q in env.window && env.window[q] == c[i])
            && (forall i :: 1 <= i < |c| ==> c[i].slot > c[0].slot)
            && c[0].parent.Some? && c[0].parent.value in env.duties
    decreases env.window[r].slot
  {
    var b := env.window[r];
    if ParentProcessed(env, b) {
      ChainInWindow(env, b.parent.value);
    }
  }

  /** The votes of every participating block carry the target root of its own chain: the block root
      at the first slot of the epoch. */
  lemma {:induction false} TargetIsEpochStart(env: Env, slots: map<Root, nat>, r: Root)
    requires env.Valid() && SlotsKnown(env, slots) && r in env.window && Processed(env, env.window[r])
    ensures var c := Chain(env, env.window[r]);
            && c[0].parent.Some?
            && var line := [c[0].parent.value] + Roots(c);
            && (forall i :: 0 <= i < |line| ==> line[i] in slots)
            && IsBlockRootAt(line, slots, env.FirstSlot(), VotesOf(env, env.window[r]).targetRoot)
  {
    var b := env.window[r];
    var c := Chain(env, b);
    ChainInWindow(env, r);
    ChainFoldable(env, b);
    FoldTarget(env, c);
    var line := [c[0].parent.value] + Roots(c);
    forall i | 0 <= i < |line| ensures line[i] in slots && (i > 0 ==> slots[line[i]] == c[i - 1].slot) {
      if i > 0 {
        var q :| q in env.window && env.window[q] == c[i - 1];
      }
    }
    if c[0].slot == env.FirstSlot() {
      assert line[1] == c[0].root;
    } else {
      assert line[0] == c[0].parent.value;
      var q :| q in env.window && env.window[q] == c[0];
      assert c[0].slot > env.FirstSlot();
    }
  }

  lemma {:induction false} FoldTarget(env: Env, c: seq<Block>)
    requires Foldable(env, c)
    ensures FoldChain(env, c).targetRoot == StartVotes(env, c[0]).targetRoot
    decreases |c|
  {
    var n := |c| - 1;
    if n == 0 {
      ApplyTarget(env, StartVotes(env, c[0]).(headRoot := c[0].root), c[0], AttestationsOf(c[0]));
    } else {
      assert c[..n][0] == c[0];
      FoldTarget(env, c[..n]);
      ApplyTarget(env, FoldChain(env, c[..n]).(headRoot := c[n].root), c[n], AttestationsOf(c[n]));
    }
  }

  /** The votes of a block name the block as their head. */
  lemma {:induction false} HeadRootIsBlock(env: Env, r: Root)
    requires env.Valid() && r in Participants(env)
    ensures VotesAt(env, r).headRoot == env.window[r].root
  {
    var b := env.window[r];
    ChainFoldable(env, b);
    var c := Chain(env, b);
    var n := |c| - 1;
    var base := if n == 0 then StartVotes(env, c[0]) else FoldChain(env, c[..n]);
    ApplyTarget(env, base.(headRoot := c[n].root), c[n], AttestationsOf(c[n]));
  }

  lemma {:induction false} ApplyTarget(env: Env, v: EpochVotes, b: Block, atts: seq<Attestation>)
    requires env.Valid() && b.parent.Some?
    ensures SameChain(v, ApplyAttestations(env, v, b, atts))
    decreases |atts|
  {
    if atts != [] {
      ApplyTarget(env, v, b, atts[..|atts| - 1]);
    }
  }

  // ----- what the tallies mean -----

  /** One attestation of a chain together with the block that carries it. */
  datatype Event = Event(block: Block, att: Attestation)

  ghost function EventsOf(b: Block, atts: seq<Attestation>): seq<Event> {
    seq(|atts|, i requires 0 <= i < |atts| => Event(b, atts[i]))
  }

  /** The attestations of a chain in the order in which they are counted. */
  ghost function Events(c: seq<Block>): seq<Event> {
    if c == [] then [] else Events(c[..|c| - 1]) + EventsOf(c[|c| - 1], AttestationsOf(c[|c| - 1]))
  }

  ghost predicate VoteIn(env: Env, table: DutyTable, e: Event, v: nat)
    requires env.Valid()
  {
    Relevant(env, e.att) && HasVoteOf(env.spec, table, e.att, v)
  }

  /** The first attestation of the chain that carries a vote of the validator. */
  ghost function FirstVote(env: Env, table: DutyTable, es: seq<Event>, v: nat): Option<Event>
    requires env.Valid()
  {
    if es == [] then None
    else
      var n := |es| - 1;
      var earlier := FirstVote(env, table, es[..n], v);
      if earlier.Some? then earlier else if VoteIn(env, table, es[n], v) then Some(es[n]) else None
  }

  /** A validator has a first vote exactly when some attestation carries its vote. */
  lemma {:induction false} FirstVoteIff(env: Env, table: DutyTable, es: seq<Event>, v: nat)
    requires env.Valid()
    ensures FirstVote(env, table, es, v).Some? <==> exists i :: 0 <= i < |es| && VoteIn(env, table, es[i], v)
    ensures FirstVote(env, table, es, v).Some? ==> VoteIn(env, table, FirstVote(env, table, es, v).value, v)
    decreases |es|
  {
    if es != [] {
      var n := |es| - 1;
      FirstVoteIff(env, table, es[..n], v);
      assert forall i :: 0 <= i < n ==> es[..n][i] == es[i];
      if i :| 0 <= i < n && VoteIn(env, table, es[i], v) {
        assert VoteIn(env, table, es[..n][i], v);
      }
    }
  }

  /** Which votes a figure counts. */
  datatype Figure = Total | Target | Head

  ghost predicate Counts(env: Env, target: Root, next: bool, figure: Figure, e: Event) {
    && env.InNextEpoch(e.block.slot) == next
    && match figure
       case Total => true
       case Target => !e.att.Unreadable? && e.att.targetRoot == target
       case Head => !e.att.Unreadable? && Some(e.att.beaconRoot) == e.block.parent
  }

  /** The validators whose first vote on the chain counts for the figure. */
  ghost function VotersFor(env: Env, v: EpochVotes, es: seq<Event>, next: bool, figure: Figure): set<nat>
    requires env.Valid()
  {
    set x | x in v.activity && FirstVote(env, v.duties.table, es, x).Some?
            && Counts(env, v.targetRoot, next, figure, FirstVote(env, v.duties.table, es, x).value)
  }

  function Amount(t: Tally, figure: Figure): nat {
    match figure case Total => t.totalAmount case Target => t.targetAmount case Head => t.headAmount
  }

  function Count(t: Tally, figure: Figure): nat {
    match figure case Total => t.totalCount case Target => t.targetCount case Head => t.headCount
  }

  function TallyOf(v: EpochVotes, next: bool): Tally { if next then v.next else v.current }

  /** Every figure is the number, and the balance, of the validators whose first vote counts for it. */
  ghost predicate Meaning(env: Env, v: EpochVotes, es: seq<Event>, bal: map<nat, nat>)
    requires env.Valid()
  {
    && v.activity <= bal.Keys
    && (forall x :: x in v.activity <==> FirstVote(env, v.duties.table, es, x).Some?)
    && forall next, figure :: FigureMeans(env, v, es, bal, next, figure)
  }

  ghost predicate FigureMeans(env: Env, v: EpochVotes, es: seq<Event>, bal: map<nat, nat>, next: bool, figure: Figure)
    requires env.Valid()
  {
    var voters := VotersFor(env, v, es, next, figure);
    && voters <= bal.Keys
    && Count(TallyOf(v, next), figure) == |voters|
    && Amount(TallyOf(v, next), figure) == BalanceSum(voters, bal)
  }

  lemma {:induction false} BalanceSumJoins(s: set<nat>, u: set<nat>, bal: map<nat, nat>)
    requires s !! u && s + u <= bal.Keys
    ensures BalanceSum(s + u, bal) == BalanceSum(s, bal) + BalanceSum(u, bal)
    decreases |u|
  {
    if u == {} {
      assert s + u == s;
    } else {
      var x :| x in u;
      BalanceSumJoins(s, u - {x}, bal);
      BalanceSumAdds(u - {x}, bal, x);
      BalanceSumAdds(s + (u - {x}), bal, x);
      assert u - {x} + {x} == u && s + (u - {x}) + {x} == s + u;
    }
  }

  /** One more attestation: the voters of a figure grow by the new voters exactly when it counts. */
  lemma {:induction false} VotersGrow(env: Env, v: EpochVotes, w: EpochVotes, es: seq<Event>, e: Event, next: bool,
                                      figure: Figure)
    requires env.Valid() && w.duties == v.duties && w.targetRoot == v.targetRoot && v.activity <= w.activity
    requires forall x :: x in v.activity <==> FirstVote(env, v.duties.table, es, x).Some?
    requires forall x :: x in w.activity <==> x in v.activity || VoteIn(env, v.duties.table, e, x)
    ensures VotersFor(env, w, es + [e], next, figure) ==
            VotersFor(env, v, es, next, figure)
            + if Counts(env, v.targetRoot, next, figure, e) then w.activity - v.activity else {}
  {
  }

  lemma {:induction false} MeaningStep(env: Env, v: EpochVotes, es: seq<Event>, b: Block, att: Attestation,
                                       bal: map<nat, nat>)
    requires env.Valid() && b.parent.Some? && Meaning(env, v, es, bal) && Consistent(v.duties.table, bal)
    ensures Meaning(env, ApplyAttestation(env, v, b, att), es + [Event(b, att)], bal)
  {
    var w := ApplyAttestation(env, v, b, att);
    var e := Event(b, att);
    var table := v.duties.table;
    if Relevant(env, att) {
      CountAttestationOnce(env.spec, table, att, v.activity, bal, env.spec.maxCommittees);
      forall x ensures x in w.activity <==> x in v.activity || VoteIn(env, table, e, x) {
        if x >= 0 { CountAttestationVoters(env.spec, table, att, v.activity, x); }
      }
    }
    assert (es + [e])[..|es|] == es;
    forall next, figure ensures FigureMeans(env, w, es + [e], bal, next, figure) {
      assert FigureMeans(env, v, es, bal, next, figure);
      VotersGrow(env, v, w, es, e, next, figure);
      FigureStep(env, v, w, es, e, bal, next, figure);
    }
  }

  /** One attestation adds its new votes to exactly the figures it counts for. */
  lemma {:induction false} TallyStep(env: Env, v: EpochVotes, b: Block, att: Attestation, next: bool, figure: Figure)
    requires env.Valid() && b.parent.Some? && Relevant(env, att)
    ensures var w := ApplyAttestation(env, v, b, att);
            var c := CountAttestation(env.spec, v.duties.table, att, v.activity);
            var counts := Counts(env, v.targetRoot, next, figure, Event(b, att));
            && w.activity == c.activity
            && Count(TallyOf(w, next), figure) == Count(TallyOf(v, next), figure) + (if counts then c.count else 0)
            && Amount(TallyOf(w, next), figure) == Amount(TallyOf(v, next), figure) + (if counts then c.amount else 0)
  {
  }

  /** New validators add their number and their balance to a set that is disjoint from them. */
  lemma {:induction false} NewVotersAdd(act: set<nat>, c: Counted, voters: set<nat>, bal: map<nat, nat>)
    requires AddsOnce(act, c, bal) && voters <= act
    ensures |voters + (c.activity - act)| == |voters| + c.count
    ensures BalanceSum(voters + (c.activity - act), bal) == BalanceSum(voters, bal) + c.amount
  {
    var new_ := c.activity - act;
    assert act + new_ == c.activity;
    BalanceSumJoins(act, new_, bal);
    BalanceSumJoins(voters, new_, bal);
  }

  lemma {:induction false} FigureStep(env: Env, v: EpochVotes, w: EpochVotes, es: seq<Event>, e: Event,
                                      bal: map<nat, nat>, next: bool, figure: Figure)
    requires env.Valid() && e.block.parent.Some? && w == ApplyAttestation(env, v, e.block, e.att)
    requires v.activity <= bal.Keys && FigureMeans(env, v, es, bal, next, figure)
    requires Relevant(env, e.att) ==>
             AddsOnce(v.activity, CountAttestation(env.spec, v.duties.table, e.att, v.activity), bal)
    requires VotersFor(env, w, es + [e], next, figure) ==
             VotersFor(env, v, es, next, figure)
             + if Counts(env, v.targetRoot, next, figure, e) then w.activity - v.activity else {}
    ensures FigureMeans(env, w, es + [e], bal, next, figure)
  {
    var voters := VotersFor(env, v, es, next, figure);
    if Relevant(env, e.att) {
      TallyStep(env, v, e.block, e.att, next, figure);
      NewVotersAdd(v.activity, CountAttestation(env.spec, v.duties.table, e.att, v.activity), voters, bal);
    } else {
      assert w == v && voters + {} == voters && w.activity - v.activity == {};
    }
  }

  lemma {:induction false} MeaningBlock(env: Env, v: EpochVotes, es: seq<Event>, b: Block, atts: seq<Attestation>,
                                        bal: map<nat, nat>)
    requires env.Valid() && b.parent.Some? && Meaning(env, v, es, bal) && Consistent(v.duties.table, bal)
    ensures Meaning(env, ApplyAttestations(env, v, b, atts), es + EventsOf(b, atts), bal)
    ensures SameChain(v, ApplyAttestations(env, v, b, atts))
    decreases |atts|
  {
    ApplyTarget(env, v, b, atts);
    if atts == [] {
      assert es + EventsOf(b, atts) == es;
    } else {
      var n := |atts| - 1;
      MeaningBlock(env, v, es, b, atts[..n], bal);
      MeaningStep(env, ApplyAttestations(env, v, b, atts[..n]), es + EventsOf(b, atts[..n]), b, atts[n], bal);
      assert es + EventsOf(b, atts) == es + EventsOf(b, atts[..n]) + [Event(b, atts[n])];
    }
  }

  lemma {:induction false} RenameHead(env: Env, v: EpochVotes, es: seq<Event>, bal: map<nat, nat>, r: Root)
    requires env.Valid() && Meaning(env, v, es, bal)
    ensures Meaning(env, v.(headRoot := r), es, bal)
  {
    forall next, figure ensures FigureMeans(env, v.(headRoot := r), es, bal, next, figure) {
      assert FigureMeans(env, v, es, bal, next, figure);
      assert VotersFor(env, v.(headRoot := r), es, next, figure) == VotersFor(env, v, es, next, figure);
    }
  }

  /** For every chain, every figure has its meaning: each validator counts once, with its first vote. */
  lemma {:induction false} FoldMeaning(env: Env, c: seq<Block>, bal: map<nat, nat>)
    requires Foldable(env, c) && Consistent(env.duties[c[0].parent.value].table, bal)
    ensures Meaning(env, FoldChain(env, c), Events(c), bal)
    ensures FoldChain(env, c).duties == env.duties[c[0].parent.value]
    decreases |c|
  {
    var n := |c| - 1;
    var v := StartVotes(env, c[0]);
    if n == 0 {
      assert c[..0] == [] && Events(c) == [] + EventsOf(c[0], AttestationsOf(c[0]));
      StartMeaning(env, v, bal);
    } else {
      assert c[..n][0] == c[0];
      FoldMeaning(env, c[..n], bal);
      v := FoldChain(env, c[..n]);
    }
    RenameHead(env, v, Events(c[..n]), bal, c[n].root);
    MeaningBlock(env, v.(headRoot := c[n].root), Events(c[..n]), c[n], AttestationsOf(c[n]), bal);
  }

  lemma {:induction false} StartMeaning(env: Env, v: EpochVotes, bal: map<nat, nat>)
    requires env.Valid() && v.activity == {} && v.current == EMPTY && v.next == EMPTY
    ensures Meaning(env, v, [], bal)
  {
  }
}
