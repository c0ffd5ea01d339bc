/**
What the vote statistics of a chain mean, said of the blocks, attestations and bits themselves: who is
counted, by which attestation, and for which figure.
*/
module VoteLaws {
  import opened BlockTree
  import opened AttestationVotes

  /** Member `j` of committee `q` is `v`, the attestation covers the committee, and the member's bit is set. */
  ghost predicate VoteBit(spec: Spec, table: DutyTable, att: Attestation, q: nat, j: nat, v: nat)
    requires !att.Unreadable?
  {
    && (att.slot, q) in table && j < |table[(att.slot, q)]| && table[(att.slot, q)][j].validator == v
    && (att.Legacy? ==> q == att.index && j < |att.bits| && att.bits[j])
    && (att.Electra? ==>
          && q < spec.maxCommittees && q < |att.committees| && att.committees[q]
          && var bit := if spec.concatBits then SizeBefore(table, att.slot, att.committees, q) + j else j;
             bit < |att.bits| && att.bits[bit])
  }

  /** Attestation `k` of block `b` is readable, belongs to the epoch and carries a vote of `v`. */
  ghost predicate CarriesVote(env: Env, table: DutyTable, b: Block, k: int, v: nat) {
    && b.body.Attestations? && 0 <= k < |b.body.list| && !b.body.list[k].Unreadable?
    && env.epoch * env.spec.slotsPerEpoch <= b.body.list[k].slot < (env.epoch + 1) * env.spec.slotsPerEpoch
    && exists q: nat, j: nat :: VoteBit(env.spec, table, b.body.list[k], q, j, v)
  }

  /** Attestation `k` of block `i` of the chain carries a vote of `v`. */
  ghost predicate VotesAtPlace(env: Env, table: DutyTable, c: seq<Block>, i: int, k: int, v: nat) {
    0 <= i < |c| && CarriesVote(env, table, c[i], k, v)
  }

  /** It is the first to do so. */
  ghost predicate FirstAt(env: Env, table: DutyTable, c: seq<Block>, i: int, k: int, v: nat) {
    && VotesAtPlace(env, table, c, i, k, v)
    && forall i', k' :: VotesAtPlace(env, table, c, i', k', v) ==> i < i' || (i == i' && k <= k')
  }

  /** A vote of this attestation counts for the figure: blocks behind the epoch report late votes, a target
      vote names the chain's target root, a head vote the parent of its block. */
  ghost predicate Qualifies(env: Env, target: Root, next: bool, figure: Figure, b: Block, k: int)
    requires b.body.Attestations? && 0 <= k < |b.body.list| && !b.body.list[k].Unreadable?
  {
    && next == (b.slot >= (env.epoch + 1) * env.spec.slotsPerEpoch)
    && (figure.Target? ==> b.body.list[k].targetRoot == target)
    && (figure.Head? ==> b.parent == Some(b.body.list[k].beaconRoot))
  }

  /** The validator counts for the figure on this chain. */
  ghost predicate CountsFor(env: Env, v: EpochVotes, c: seq<Block>, next: bool, figure: Figure, x: nat) {
    exists i, k :: FirstAt(env, v.duties.table, c, i, k, x) && Qualifies(env, v.targetRoot, next, figure, c[i], k)
  }

  // ----- one attestation -----

  lemma {:induction false} VoteBits(spec: Spec, table: DutyTable, att: Attestation, v: nat)
    requires !att.Unreadable?
    ensures HasVoteOf(spec, table, att, v) <==> exists q: nat, j: nat :: VoteBit(spec, table, att, q, j, v)
  {
    if HasVoteOf(spec, table, att, v) {
      var q :| CommitteeUsed(spec, att, q)
        && BitFor(DutiesOf(table, att.slot, q), att.bits, BitOffset(spec, table, att, q), v);
      var ds := DutiesOf(table, att.slot, q);
      var j :| 0 <= j < |ds| && ds[j].validator == v && BitAt(att.bits, j + BitOffset(spec, table, att, q));
      assert VoteBit(spec, table, att, q, j, v);
    }
    if q: nat, j: nat :| VoteBit(spec, table, att, q, j, v) {
      var ds := DutiesOf(table, att.slot, q);
      assert ds[j].validator == v && BitAt(att.bits, j + BitOffset(spec, table, att, q));
      assert CommitteeUsed(spec, att, q);
    }
  }

  lemma {:induction false} EpochSlots(slot: nat, n: nat, epoch: nat)
    requires n > 0
    ensures slot / n == epoch <==> epoch * n <= slot < (epoch + 1) * n
  {
    var q, r := slot / n, slot % n;
    assert slot == q * n + r && (epoch + 1) * n == epoch * n + n;
    if q < epoch {
      assert (q + 1) * n <= epoch * n;
    }
    if q > epoch {
      assert (epoch + 1) * n <= q * n;
    }
  }

  lemma {:induction false} VoteInIff(env: Env, table: DutyTable, b: Block, k: nat, v: nat)
    requires env.Valid()
    ensures CarriesVote(env, table, b, k, v) <==>
            k < |AttestationsOf(b)| && VoteIn(env, table, Event(b, AttestationsOf(b)[k]), v)
  {
    if b.body.Attestations? && k < |b.body.list| && !b.body.list[k].Unreadable? {
      VoteBits(env.spec, table, b.body.list[k], v);
      EpochSlots(b.body.list[k].slot, env.spec.slotsPerEpoch, env.epoch);
    }
  }

  // ----- along a chain -----

  lemma {:induction false} FirstVoteJoins(env: Env, table: DutyTable, es: seq<Event>, fs: seq<Event>, v: nat)
    requires env.Valid()
    ensures var e := FirstVote(env, table, es, v);
            FirstVote(env, table, es + fs, v) == if e.Some? then e else FirstVote(env, table, fs, v)
    decreases |fs|
  {
    if fs == [] {
      assert es + fs == es;
    } else {
      var n := |fs| - 1;
      FirstVoteJoins(env, table, es, fs[..n], v);
      assert (es + fs)[..|es + fs| - 1] == es + fs[..n];
    }
  }

  /** The first vote within one block. */
  lemma {:induction false} FirstInBlock(env: Env, table: DutyTable, b: Block, atts: seq<Attestation>, v: nat)
    returns (k: nat)
    requires env.Valid()
    ensures var e := FirstVote(env, table, EventsOf(b, atts), v);
            && (e == None ==> forall j :: 0 <= j < |atts| ==> !VoteIn(env, table, Event(b, atts[j]), v))
            && (e.Some? ==> k < |atts| && e.value == Event(b, atts[k]) && VoteIn(env, table, Event(b, atts[k]), v)
                            && forall j :: 0 <= j < k ==> !VoteIn(env, table, Event(b, atts[j]), v))
    decreases |atts|
  {
    k := 0;
    if atts != [] {
      var n := |atts| - 1;
      k := FirstInBlock(env, table, b, atts[..n], v);
      assert EventsOf(b, atts)[..n] == EventsOf(b, atts[..n]);
      assert forall j :: 0 <= j < n ==> atts[..n][j] == atts[j];
      if FirstVote(env, table, EventsOf(b, atts[..n]), v) == None {
        k := n;
      }
    }
  }

  /** Some attestation of the chain carries a vote of `v`. */
  ghost predicate HasVoted(env: Env, table: DutyTable, c: seq<Block>, v: nat) {
    exists i, k :: VotesAtPlace(env, table, c, i, k, v)
  }

  lemma {:induction false} BlockFirst(env: Env, table: DutyTable, b: Block, v: nat) returns (k: nat)
    requires env.Valid()
    ensures var e := FirstVote(env, table, EventsOf(b, AttestationsOf(b)), v);
            && (e == None ==> forall j :: !CarriesVote(env, table, b, j, v))
            && (e.Some? ==> CarriesVote(env, table, b, k, v) && e.value == Event(b, b.body.list[k])
                            && forall j :: CarriesVote(env, table, b, j, v) ==> k <= j)
  {
    var atts := AttestationsOf(b);
    k := FirstInBlock(env, table, b, atts, v);
    forall j | CarriesVote(env, table, b, j, v)
      ensures j < |atts| && VoteIn(env, table, Event(b, atts[j]), v)
    {
      VoteInIff(env, table, b, j, v);
    }
    if FirstVote(env, table, EventsOf(b, atts), v).Some? {
      VoteInIff(env, table, b, k, v);
      assert b.body.Attestations? && atts[k] == b.body.list[k];
    }
  }

  /** The first vote on a chain, by its place. */
  lemma {:induction false} FirstOnChain(env: Env, table: DutyTable, c: seq<Block>, v: nat) returns (i: nat, k: nat)
    requires env.Valid()
    ensures var e := FirstVote(env, table, Events(c), v);
            && (e == None ==> !HasVoted(env, table, c, v))
            && (e.Some? ==> FirstAt(env, table, c, i, k, v) && e.value == Event(c[i], c[i].body.list[k]))
    decreases |c|
  {
    i, k := 0, 0;
    if c != [] {
      var n := |c| - 1;
      var front := c[..n];
      i, k := FirstOnChain(env, table, front, v);
      FirstVoteJoins(env, table, Events(front), EventsOf(c[n], AttestationsOf(c[n])), v);
      PlacesInFront(env, table, c, v);
      if FirstVote(env, table, Events(front), v) == None {
        i := n;
        k := BlockFirst(env, table, c[n], v);
      }
    }
  }

  lemma {:induction false} PlacesInFront(env: Env, table: DutyTable, c: seq<Block>, v: nat)
    requires c != []
    ensures forall i, k :: VotesAtPlace(env, table, c, i, k, v) <==>
              VotesAtPlace(env, table, c[..|c| - 1], i, k, v) ||
              (i == |c| - 1 && CarriesVote(env, table, c[|c| - 1], k, v))
  {
  }

  lemma {:induction false} BlockActivity(env: Env, w: EpochVotes, es: seq<Event>, b: Block, atts: seq<Attestation>,
                                         v: nat)
    requires env.Valid() && b.parent.Some? && (v in w.activity <==> FirstVote(env, w.duties.table, es, v).Some?)
    ensures var w' := ApplyAttestations(env, w, b, atts);
            && w'.duties == w.duties
            && (v in w'.activity <==> FirstVote(env, w.duties.table, es + EventsOf(b, atts), v).Some?)
    decreases |atts|
  {
    if atts == [] {
      assert es + EventsOf(b, atts) == es;
    } else {
      var n := |atts| - 1;
      BlockActivity(env, w, es, b, atts[..n], v);
      var w' := ApplyAttestations(env, w, b, atts[..n]);
      var fs := es + EventsOf(b, atts[..n]);
      assert es + EventsOf(b, atts) == fs + [Event(b, atts[n])];
      assert (fs + [Event(b, atts[n])])[..|fs|] == fs;
      if Relevant(env, atts[n]) {
        CountAttestationVoters(env.spec, w.duties.table, atts[n], w'.activity, v);
      }
    }
  }

  lemma {:induction false} ChainActivity(env: Env, c: seq<Block>, v: nat)
    requires Foldable(env, c)
    ensures var table := env.duties[c[0].parent.value].table;
            && FoldChain(env, c).duties == env.duties[c[0].parent.value]
            && (v in FoldChain(env, c).activity <==> FirstVote(env, table, Events(c), v).Some?)
    decreases |c|
  {
    var n := |c| - 1;
    var w := StartVotes(env, c[0]);
    if n == 0 {
      assert c[..0] == [] && Events(c[..0]) == [];
    } else {
      assert c[..n][0] == c[0];
      ChainActivity(env, c[..n], v);
      w := FoldChain(env, c[..n]);
    }
    BlockActivity(env, w.(headRoot := c[n].root), Events(c[..n]), c[n], AttestationsOf(c[n]), v);
  }

  /** For every chain: a validator is counted if and only if some readable attestation of the epoch in some
      block of the chain has its bit set. */
  lemma {:induction false} CountedIff(env: Env, c: seq<Block>, v: nat)
    requires Foldable(env, c)
    ensures v in FoldChain(env, c).activity <==>
            HasVoted(env, env.duties[c[0].parent.value].table, c, v)
  {
    ChainActivity(env, c, v);
    var i, k := FirstOnChain(env, env.duties[c[0].parent.value].table, c, v);
  }

  /** The same for the votes of every participating block. */
  lemma {:induction false} ParticipantCountedIff(env: Env, r: Root, v: nat)
    requires env.Valid() && r in Participants(env)
    ensures v in VotesAt(env, r).activity <==>
            HasVoted(env, VotesAt(env, r).duties.table, Chain(env, env.window[r]), v)
  {
    ChainFoldable(env, env.window[r]);
    var c := Chain(env, env.window[r]);
    assert VotesAt(env, r) == FoldChain(env, c);
    ChainActivity(env, c, v);
    CountedIff(env, c, v);
  }

  lemma {:induction false} FirstAtUnique(env: Env, table: DutyTable, c: seq<Block>, v: nat, i: int, k: int, i': int,
                                         k': int)
    requires FirstAt(env, table, c, i, k, v) && FirstAt(env, table, c, i', k', v)
    ensures i == i' && k == k'
  {
  }

  lemma {:induction false} VotersAre(env: Env, w: EpochVotes, c: seq<Block>, next: bool, figure: Figure, x: nat)
    requires env.Valid() && (x in w.activity <==> FirstVote(env, w.duties.table, Events(c), x).Some?)
    ensures x in VotersFor(env, w, Events(c), next, figure) <==> CountsFor(env, w, c, next, figure, x)
  {
    var i, k := FirstOnChain(env, w.duties.table, c, x);
    if FirstVote(env, w.duties.table, Events(c), x).Some? {
      assert env.InNextEpoch(c[i].slot) <==> c[i].slot >= (env.epoch + 1) * env.spec.slotsPerEpoch by {
        assert (env.epoch + 1) * env.spec.slotsPerEpoch == env.epoch * env.spec.slotsPerEpoch + env.spec.slotsPerEpoch;
      }
      if CountsFor(env, w, c, next, figure, x) {
        var i', k' :|
          FirstAt(env, w.duties.table, c, i', k', x) && Qualifies(env, w.targetRoot, next, figure, c[i'], k');
        FirstAtUnique(env, w.duties.table, c, x, i, k, i', k');
      }
    }
  }

  /** For every chain and every figure: it is the number, and the balance, of the validators whose first
      vote on the chain qualifies for it. */
  lemma {:induction false} FigureIs(env: Env, c: seq<Block>, bal: map<nat, nat>, next: bool, figure: Figure)
    returns (voters: set<nat>)
    requires Foldable(env, c) && Consistent(env.duties[c[0].parent.value].table, bal)
    ensures voters <= bal.Keys
    ensures forall x: nat :: x in voters <==> CountsFor(env, FoldChain(env, c), c, next, figure, x)
    ensures Count(TallyOf(FoldChain(env, c), next), figure) == |voters|
    ensures Amount(TallyOf(FoldChain(env, c), next), figure) == BalanceSum(voters, bal)
  {
    var w := FoldChain(env, c);
    FoldMeaning(env, c, bal);
    assert FigureMeans(env, w, Events(c), bal, next, figure);
    voters := VotersFor(env, w, Events(c), next, figure);
    forall x: nat ensures x in voters <==> CountsFor(env, w, c, next, figure, x) {
      VotersAre(env, w, c, next, figure, x);
    }
  }

  ghost predicate FigureCounts(env: Env, w: EpochVotes, c: seq<Block>, bal: map<nat, nat>, next: bool, figure: Figure) {
    exists voters: set<nat> ::
      && voters <= bal.Keys && (forall x: nat :: x in voters <==> CountsFor(env, w, c, next, figure, x))
      && Count(TallyOf(w, next), figure) == |voters| && Amount(TallyOf(w, next), figure) == BalanceSum(voters, bal)
  }

  /** The statistics of a chain, in full. */
  ghost predicate VotesMean(env: Env, w: EpochVotes, c: seq<Block>, bal: map<nat, nat>) {
    && (forall v: nat :: v in w.activity <==> HasVoted(env, w.duties.table, c, v))
    && forall next, figure :: FigureCounts(env, w, c, bal, next, figure)
  }

  lemma {:induction false} ChainVotesMean(env: Env, c: seq<Block>, bal: map<nat, nat>)
    requires Foldable(env, c) && Consistent(env.duties[c[0].parent.value].table, bal)
    ensures VotesMean(env, FoldChain(env, c), c, bal)
  {
    FoldMeaning(env, c, bal);
    forall v: nat
      ensures v in FoldChain(env, c).activity <==>
              HasVoted(env, FoldChain(env, c).duties.table, c, v)
    {
      CountedIff(env, c, v);
    }
    forall next, figure ensures FigureCounts(env, FoldChain(env, c), c, bal, next, figure) {
      var voters := FigureIs(env, c, bal, next, figure);
    }
  }

  // ----- the blocks of a chain -----

  /** The chain of a block: each block is the parent of the next one, the last one is the block itself, and
      the duties of the epoch are those stored for the parent of the first one. */
  lemma {:induction false} ChainLinks(env: Env, b: Block)
    requires Processed(env, b) && forall r :: r in env.window ==> env.window[r].root == r
    ensures var c := Chain(env, b);
            && c[|c| - 1] == b && c[0].parent.Some? && c[0].parent.value in env.duties
            && (forall i :: 0 <= i < |c| ==> !c[i].body.Missing?)
            && (forall i :: 0 <= i < |c| - 1 ==> c[i + 1].parent == Some(c[i].root) && c[i].root in env.window
                                                  && env.window[c[i].root] == c[i])
    decreases b.slot
  {
    if ParentProcessed(env, b) {
      ChainLinks(env, env.window[b.parent.value]);
    }
  }

  // ----- the attestations of a chain -----

  /** The bodies of the chain one behind the other. */
  function Bodies(c: seq<Block>): seq<Attestation> {
    if c == [] then [] else Bodies(c[..|c| - 1]) + if c[|c| - 1].body.Attestations? then c[|c| - 1].body.list else []
  }

  /** The counted attestations are exactly those of the bodies, in chain order. */
  lemma {:induction false} EventsAreBodies(c: seq<Block>)
    ensures |Events(c)| == |Bodies(c)| && forall i :: 0 <= i < |Bodies(c)| ==> Events(c)[i].att == Bodies(c)[i]
    decreases |c|
  {
    if c != [] {
      EventsAreBodies(c[..|c| - 1]);
    }
  }
}
