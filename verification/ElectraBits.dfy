/**
The aggregation bits of Electra attestations. EIP-7549 puts the bits of the used committees one behind
the other; assertoor reads the bits of every committee from bit 0. Both readings are compared here,
for one attestation and along a chain.
*/
module ElectraBits {
  import opened BlockTree
  import opened AttestationVotes

  /** Every validator has one duty among the committees of the slot. */
  ghost predicate UniqueDuties(table: DutyTable, slot: nat) {
    forall k: nat, l: nat, i, j | 0 <= i < |DutiesOf(table, slot, k)| && 0 <= j < |DutiesOf(table, slot, l)| ::
      DutiesOf(table, slot, k)[i].validator == DutiesOf(table, slot, l)[j].validator ==> k == l && i == j
  }

  /** Both readings give member `i` of committee `k` the same bit. */
  predicate SameBit(table: DutyTable, att: Attestation, k: nat, i: nat)
    requires att.Electra?
  {
    BitAt(att.bits, i) <==> BitAt(att.bits, i + SizeBefore(table, att.slot, att.committees, k))
  }

  /** They do so for every member of a used committee that was not counted before. */
  ghost predicate BitsCoincide(spec: Spec, table: DutyTable, att: Attestation, act: set<nat>)
    requires att.Electra?
  {
    forall k: nat, i: nat :: CommitteeUsed(spec, att, k) && i < |DutiesOf(table, att.slot, k)|
                             && DutiesOf(table, att.slot, k)[i].validator !in act
                             ==> SameBit(table, att, k, i)
  }

  function AsCode(spec: Spec): Spec { spec.(concatBits := false) }
  function AsEip(spec: Spec): Spec { spec.(concatBits := true) }

  // ----- one attestation -----

  lemma {:induction false} VoteOfMember(spec: Spec, table: DutyTable, att: Attestation, k: nat, i: nat)
    requires !att.Unreadable? && UniqueDuties(table, att.slot)
    requires CommitteeUsed(spec, att, k) && i < |DutiesOf(table, att.slot, k)|
    ensures HasVoteOf(spec, table, att, DutiesOf(table, att.slot, k)[i].validator)
            <==> BitAt(att.bits, i + BitOffset(spec, table, att, k))
  {
  }

  lemma {:induction false} SameDuties(ds: seq<Duty>, bits: seq<bool>, offset: nat, act: set<nat>)
    requires forall i :: 0 <= i < |ds| && ds[i].validator !in act ==> (BitAt(bits, i) <==> BitAt(bits, i + offset))
    ensures CountDuties(ds, bits, 0, act) == CountDuties(ds, bits, offset, act)
    ensures act <= CountDuties(ds, bits, 0, act).activity
    decreases |ds|
  {
    if ds != [] {
      SameDuties(ds[..|ds| - 1], bits, offset, act);
    }
  }

  lemma {:induction false} SameCommittees(spec: Spec, table: DutyTable, att: Attestation, act: set<nat>, n: nat)
    requires att.Electra? && n <= spec.maxCommittees && BitsCoincide(spec, table, att, act)
    ensures CountCommittees(AsCode(spec), table, att, act, n) == CountCommittees(AsEip(spec), table, att, act, n)
    ensures act <= CountCommittees(AsCode(spec), table, att, act, n).activity
    decreases n
  {
    if n > 0 {
      SameCommittees(spec, table, att, act, n - 1);
      if BitAt(att.committees, n - 1) {
        var ds := DutiesOf(table, att.slot, n - 1);
        var before := CountCommittees(AsCode(spec), table, att, act, n - 1).activity;
        forall i | 0 <= i < |ds| && ds[i].validator !in before ensures SameBit(table, att, n - 1, i) {
          assert CommitteeUsed(spec, att, n - 1) && ds[i].validator !in act;
        }
        SameDuties(ds, att.bits, SizeBefore(table, att.slot, att.committees, n - 1), before);
      }
    }
  }

  /** From any validators counted before: the code counts exactly what EIP-7549 defines - the same
      validators, number and balance - if and only if the bits coincide. */
  lemma {:induction false} ElectraVotersIff(spec: Spec, table: DutyTable, att: Attestation, act: set<nat>)
    requires att.Electra? && UniqueDuties(table, att.slot)
    ensures CountAttestation(AsCode(spec), table, att, act) == CountAttestation(AsEip(spec), table, att, act)
            <==> BitsCoincide(spec, table, att, act)
  {
    if BitsCoincide(spec, table, att, act) {
      SameCommittees(spec, table, att, act, spec.maxCommittees);
    }
    if CountAttestation(AsCode(spec), table, att, act) == CountAttestation(AsEip(spec), table, att, act) {
      forall k: nat, i: nat | CommitteeUsed(spec, att, k) && i < |DutiesOf(table, att.slot, k)|
                              && DutiesOf(table, att.slot, k)[i].validator !in act
        ensures SameBit(table, att, k, i)
      {
        MemberBits(spec, table, att, act, k, i);
      }
    }
  }

  lemma {:induction false} MemberBits(spec: Spec, table: DutyTable, att: Attestation, act: set<nat>, k: nat, i: nat)
    requires att.Electra? && UniqueDuties(table, att.slot)
    requires CountAttestation(AsCode(spec), table, att, act) == CountAttestation(AsEip(spec), table, att, act)
    requires CommitteeUsed(spec, att, k) && i < |DutiesOf(table, att.slot, k)|
    requires DutiesOf(table, att.slot, k)[i].validator !in act
    ensures SameBit(table, att, k, i)
  {
    var v := DutiesOf(table, att.slot, k)[i].validator;
    CountAttestationVoters(AsCode(spec), table, att, act, v);
    CountAttestationVoters(AsEip(spec), table, att, act, v);
    VoteOfMember(AsCode(spec), table, att, k, i);
    VoteOfMember(AsEip(spec), table, att, k, i);
  }

  /** Two committees of two members each. */
  const OVERLAP_TABLE: DutyTable := map[(0, 0) := [Duty(7, 32), Duty(8, 32)], (0, 1) := [Duty(9, 32), Duty(10, 32)]]

  /** The first member of the first one and the second member of the second one voted. */
  const OVERLAP_VOTE := Electra(0, 1, 1, [true, false, false, true], [true, true])

  lemma {:induction false} OverlapOffsets()
    ensures SizeBefore(OVERLAP_TABLE, 0, [true, true], 0) == 0 && SizeBefore(OVERLAP_TABLE, 0, [true, true], 1) == 2
    ensures |DutiesOf(OVERLAP_TABLE, 0, 0)| == |DutiesOf(OVERLAP_TABLE, 0, 1)| == 2
  {
    assert SizeBefore(OVERLAP_TABLE, 0, [true, true], 0) == 0;
  }

  /** Who votes by a reading that puts the bits of the second committee at this offset. */
  lemma {:induction false} OverlapVoters(concat: bool, v: nat)
    requires v == 9 || v == 10
    ensures HasVoteOf(Spec(32, 2, concat), OVERLAP_TABLE, OVERLAP_VOTE, v) <==> (v == 10) == concat
  {
    OverlapOffsets();
    var spec, ds := Spec(32, 2, concat), DutiesOf(OVERLAP_TABLE, 0, 1);
    assert CommitteeUsed(spec, OVERLAP_VOTE, 1);
    assert BitOffset(spec, OVERLAP_TABLE, OVERLAP_VOTE, 1) == if concat then 2 else 0;
    assert ds[0].validator == 9 && ds[1].validator == 10;
    assert !BitFor(DutiesOf(OVERLAP_TABLE, 0, 0), OVERLAP_VOTE.bits, 0, v);
    if concat {
      assert BitAt(OVERLAP_VOTE.bits, 1 + 2) && !BitAt(OVERLAP_VOTE.bits, 0 + 2);
    } else {
      assert BitAt(OVERLAP_VOTE.bits, 0 + 0) && !BitAt(OVERLAP_VOTE.bits, 1 + 0);
    }
    assert BitFor(ds, OVERLAP_VOTE.bits, if concat then 2 else 0, v) <==> (v == 10) == concat;
    assert forall k: nat :: CommitteeUsed(spec, OVERLAP_VOTE, k) ==> k == 0 || k == 1;
  }

  /** They do differ, on an attestation with a voter in each committee: the code counts validator 9 in
      place of validator 10. */
  lemma {:induction false} ElectraOverlap()
    ensures var code := CountAttestation(Spec(32, 2, false), OVERLAP_TABLE, OVERLAP_VOTE, {}).activity;
            var eip := CountAttestation(Spec(32, 2, true), OVERLAP_TABLE, OVERLAP_VOTE, {}).activity;
            9 in code && 10 !in code && 9 !in eip && 10 in eip
  {
    forall v: nat, concat | v == 9 || v == 10
      ensures v in CountAttestation(Spec(32, 2, concat), OVERLAP_TABLE, OVERLAP_VOTE, {}).activity <==>
              (v == 10) == concat
    {
      CountAttestationVoters(Spec(32, 2, concat), OVERLAP_TABLE, OVERLAP_VOTE, {}, v);
      OverlapVoters(concat, v);
    }
  }

  // ----- along a chain -----

  ghost predicate HaveParents(es: seq<Event>) {
    forall i :: 0 <= i < |es| ==> es[i].block.parent.Some?
  }

  /** The votes after a number of attestations of the chain. */
  ghost function FoldEvents(env: Env, v: EpochVotes, es: seq<Event>): EpochVotes
    requires env.Valid() && HaveParents(es)
  {
    if es == [] then v
    else
      var n := |es| - 1;
      ApplyAttestation(env, FoldEvents(env, v, es[..n]), es[n].block, es[n].att)
  }

  lemma {:induction false} FoldEventsJoins(env: Env, v: EpochVotes, es: seq<Event>, b: Block, atts: seq<Attestation>)
    requires env.Valid() && HaveParents(es) && b.parent.Some?
    ensures HaveParents(es + EventsOf(b, atts))
    ensures FoldEvents(env, v, es + EventsOf(b, atts)) == ApplyAttestations(env, FoldEvents(env, v, es), b, atts)
    decreases |atts|
  {
    if atts == [] {
      assert es + EventsOf(b, atts) == es;
    } else {
      var n := |atts| - 1;
      FoldEventsJoins(env, v, es, b, atts[..n]);
      var front := es + EventsOf(b, atts[..n]);
      var all := es + EventsOf(b, atts);
      assert all == front + [Event(b, atts[n])] && all[..|all| - 1] == front;
    }
  }

  lemma {:induction false} RenamedHead(env: Env, v: EpochVotes, b: Block, atts: seq<Attestation>, r: Root)
    requires env.Valid() && b.parent.Some?
    ensures ApplyAttestations(env, v.(headRoot := r), b, atts) == ApplyAttestations(env, v, b, atts).(headRoot := r)
    decreases |atts|
  {
    if atts != [] {
      RenamedHead(env, v, b, atts[..|atts| - 1], r);
    }
  }

  /** The fold over the blocks of a chain is the fold over its attestations. */
  lemma {:induction false} ChainIsEvents(env: Env, c: seq<Block>)
    requires Foldable(env, c)
    ensures HaveParents(Events(c))
    ensures FoldChain(env, c) ==
            FoldEvents(env, StartVotes(env, c[0]), Events(c)).(headRoot := c[|c| - 1].root)
    decreases |c|
  {
    var n := |c| - 1;
    var v := StartVotes(env, c[0]);
    var atts := AttestationsOf(c[n]);
    if n == 0 {
      assert Events(c[..0]) == [] && FoldEvents(env, v, []) == v;
    } else {
      assert c[..n][0] == c[0];
      ChainIsEvents(env, c[..n]);
    }
    var before := FoldEvents(env, v, Events(c[..n]));
    FoldEventsJoins(env, v, Events(c[..n]), c[n], atts);
    RenamedHead(env, before, c[n], atts, c[n].root);
    if n > 0 {
      assert before.(headRoot := c[n - 1].root).(headRoot := c[n].root) == before.(headRoot := c[n].root);
    }
  }

  function CodeEnv(env: Env): Env { env.(spec := AsCode(env.spec)) }
  function EipEnv(env: Env): Env { env.(spec := AsEip(env.spec)) }

  /** Both readings give the same votes after the first `m` attestations. */
  ghost predicate SameAfter(env: Env, v: EpochVotes, es: seq<Event>, m: nat)
    requires env.Valid() && HaveParents(es) && m <= |es|
  {
    FoldEvents(CodeEnv(env), v, es[..m]) == FoldEvents(EipEnv(env), v, es[..m])
  }

  /** The bits of attestation `m` coincide for the validators that the code has not counted before it. */
  ghost predicate CoincideAt(env: Env, v: EpochVotes, es: seq<Event>, m: nat)
    requires env.Valid() && HaveParents(es) && m < |es|
  {
    Relevant(env, es[m].att) && es[m].att.Electra? ==>
      BitsCoincide(env.spec, v.duties.table, es[m].att, FoldEvents(CodeEnv(env), v, es[..m]).activity)
  }

  lemma {:induction false} RecordInjective(v: EpochVotes, c: Counted, d: Counted, next: bool, target: bool, head: bool)
    ensures Record(v, c, next, target, head) == Record(v, d, next, target, head) <==> c == d
  {
  }

  lemma {:induction false} KeepsDuties(env: Env, v: EpochVotes, es: seq<Event>)
    requires env.Valid() && HaveParents(es)
    ensures FoldEvents(env, v, es).duties == v.duties
    decreases |es|
  {
    if es != [] {
      KeepsDuties(env, v, es[..|es| - 1]);
    }
  }

  lemma {:induction false} SameStep(env: Env, v: EpochVotes, e: Event)
    requires env.Valid() && e.block.parent.Some? && forall slot: nat :: UniqueDuties(v.duties.table, slot)
    ensures ApplyAttestation(CodeEnv(env), v, e.block, e.att) == ApplyAttestation(EipEnv(env), v, e.block, e.att) <==>
            (Relevant(env, e.att) && e.att.Electra? ==> BitsCoincide(env.spec, v.duties.table, e.att, v.activity))
  {
    var code, eip := CodeEnv(env), EipEnv(env);
    assert Relevant(code, e.att) == Relevant(eip, e.att) == Relevant(env, e.att);
    if Relevant(env, e.att) {
      var c := CountAttestation(code.spec, v.duties.table, e.att, v.activity);
      var d := CountAttestation(eip.spec, v.duties.table, e.att, v.activity);
      RecordInjective(v, c, d, env.InNextEpoch(e.block.slot), e.att.targetRoot == v.targetRoot,
                      e.att.beaconRoot == e.block.parent.value);
      if e.att.Electra? {
        ElectraVotersIff(env.spec, v.duties.table, e.att, v.activity);
      }
    }
  }

  /** On every chain: after each of its attestations the code has counted what EIP-7549 defines if and only
      if the bits of every Electra attestation coincide where they matter. */
  lemma {:induction false} ElectraChainIff(env: Env, v: EpochVotes, es: seq<Event>)
    requires env.Valid() && HaveParents(es) && forall slot: nat :: UniqueDuties(v.duties.table, slot)
    ensures (forall m :: 0 <= m <= |es| ==> SameAfter(env, v, es, m))
            <==> forall m :: 0 <= m < |es| ==> CoincideAt(env, v, es, m)
    decreases |es|
  {
    assert SameAfter(env, v, es, 0) by { assert es[..0] == []; }
    if es != [] {
      var n := |es| - 1;
      var front := es[..n];
      ElectraChainIff(env, v, front);
      forall m | 0 <= m <= n ensures SameAfter(env, v, front, m) <==> SameAfter(env, v, es, m) {
        assert front[..m] == es[..m];
      }
      forall m | 0 <= m < n ensures CoincideAt(env, v, front, m) <==> CoincideAt(env, v, es, m) {
        assert front[..m] == es[..m];
      }
      if SameAfter(env, v, es, n) {
        LastEvent(env, v, es);
      }
    }
  }

  lemma {:induction false} LastEvent(env: Env, v: EpochVotes, es: seq<Event>)
    requires env.Valid() && HaveParents(es) && es != [] && forall slot: nat :: UniqueDuties(v.duties.table, slot)
    requires SameAfter(env, v, es, |es| - 1)
    ensures SameAfter(env, v, es, |es|) <==> CoincideAt(env, v, es, |es| - 1)
  {
    var n := |es| - 1;
    assert es[..|es|] == es;
    KeepsDuties(CodeEnv(env), v, es[..n]);
    SameStep(env, FoldEvents(CodeEnv(env), v, es[..n]), es[n]);
  }

  /** So, when they coincide, the votes reported for a chain are those of EIP-7549. */
  lemma {:induction false} ElectraChainAgrees(env: Env, c: seq<Block>)
    requires Foldable(env, c)
    requires var v := StartVotes(env, c[0]);
             && (forall slot: nat :: UniqueDuties(v.duties.table, slot))
             && HaveParents(Events(c)) && forall m :: 0 <= m < |Events(c)| ==> CoincideAt(env, v, Events(c), m)
    ensures FoldChain(CodeEnv(env), c) == FoldChain(EipEnv(env), c)
  {
    var v, es := StartVotes(env, c[0]), Events(c);
    ElectraChainIff(env, v, es);
    assert SameAfter(env, v, es, |es|) && es[..|es|] == es;
    ChainIsEvents(CodeEnv(env), c);
    ChainIsEvents(EipEnv(env), c);
  }
}
