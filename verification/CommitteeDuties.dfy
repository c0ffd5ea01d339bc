/**
The duty table of an epoch: committee members grouped by slot and committee index, and the count
and total balance of the active validators.
*/
module CommitteeDuties {
  import opened BlockTree
  import opened AttestationVotes
  import opened Arithmetic

  datatype Validator = Validator(activation: nat, exit: nat, effectiveBalance: nat)
  datatype Committee = Committee(slot: nat, index: nat, validators: seq<nat>)

  type ValidatorSet = map<nat, Validator>

  predicate IsActive(v: Validator, epoch: nat) {
    v.activation <= epoch < v.exit
  }

  ghost function ActiveSet(validators: ValidatorSet, epoch: nat): set<nat> {
    set v | v in validators && validators[v].activation <= epoch < validators[v].exit
  }

  ghost function Balances(validators: ValidatorSet): map<nat, nat> {
    map v | v in validators :: validators[v].effectiveBalance
  }

  ghost predicate MembersKnown(committees: seq<Committee>, validators: ValidatorSet) {
    forall i, j :: 0 <= i < |committees| && 0 <= j < |committees[i].validators| ==>
      committees[i].validators[j] in validators
  }

  ghost predicate IsMember(committees: seq<Committee>, v: nat) {
    exists i :: 0 <= i < |committees| && v in committees[i].validators
  }

  ghost function DutyList(vs: seq<nat>, validators: ValidatorSet): (ds: seq<Duty>)
    requires forall j :: 0 <= j < |vs| ==> vs[j] in validators
    ensures |ds| == |vs| && forall j :: 0 <= j < |vs| ==> ds[j] == Duty(vs[j], validators[vs[j]].effectiveBalance)
  {
    seq(|vs|, j requires 0 <= j < |vs| => Duty(vs[j], validators[vs[j]].effectiveBalance))
  }

  /** Reference: the members of all committees listed for this slot and index, in list order. */
  ghost function Members(committees: seq<Committee>, validators: ValidatorSet, slot: nat, index: nat): seq<Duty>
    requires MembersKnown(committees, validators)
  {
    if committees == [] then []
    else
      var n := |committees| - 1;
      var c := committees[n];
      Members(committees[..n], validators, slot, index)
      + if c.slot == slot && c.index == index then DutyList(c.validators, validators) else []
  }

  ghost predicate TableOf(table: DutyTable, committees: seq<Committee>, validators: ValidatorSet)
    requires MembersKnown(committees, validators)
  {
    forall s, i :: DutiesOf(table, s, i) == Members(committees, validators, s, i)
  }

  method AddCommittee(before: DutyTable, c: Committee, validators: ValidatorSet) returns (table: DutyTable)
    requires forall j :: 0 <= j < |c.validators| ==> c.validators[j] in validators
    ensures forall k :: k != (c.slot, c.index) ==>
            (k in table <==> k in before) && (k in before ==> table[k] == before[k])
    ensures DutiesOf(table, c.slot, c.index) == DutiesOf(before, c.slot, c.index) + DutyList(c.validators, validators)
  {
    table := before;
    var k := (c.slot, c.index);
    for j := 0 to |c.validators|
      invariant forall q :: q != k ==> (q in table <==> q in before) && (q in before ==> table[q] == before[q])
      invariant DutiesOf(table, c.slot, c.index) == DutiesOf(before, c.slot, c.index)
                + DutyList(c.validators[..j], validators)
    {
      var v := c.validators[j];
      if k !in table {
        table := table[k := []];
      }
      table := table[k := table[k] + [Duty(v, validators[v].effectiveBalance)]];
      assert DutyList(c.validators[..j + 1], validators) == DutyList(c.validators[..j], validators)
             + [Duty(v, validators[v].effectiveBalance)];
    }
    assert c.validators[..|c.validators|] == c.validators;
  }

  lemma {:induction false} TableStep(table: DutyTable, table': DutyTable, committees: seq<Committee>, n: nat,
                                     validators: ValidatorSet)
    requires MembersKnown(committees, validators) && n < |committees| && TableOf(table, committees[..n], validators)
    requires forall k :: k != (committees[n].slot, committees[n].index) ==>
             (k in table' <==> k in table) && (k in table ==> table'[k] == table[k])
    requires var c := committees[n];
             DutiesOf(table', c.slot, c.index) == DutiesOf(table, c.slot, c.index) + DutyList(c.validators, validators)
    ensures TableOf(table', committees[..n + 1], validators)
  {
    var c := committees[n];
    assert forall i :: 0 <= i < |committees[..n + 1]| ==> committees[..n + 1][i] == committees[i];
    forall s: nat, i: nat ensures DutiesOf(table', s, i) == Members(committees[..n + 1], validators, s, i) {
      MembersStep(committees, n, validators, s, i);
      assert DutiesOf(table, s, i) == Members(committees[..n], validators, s, i);
      if (s, i) != (c.slot, c.index) {
        SameDutyList(table, table', s, i);
      }
    }
  }

  lemma {:induction false} SameDutyList(table: DutyTable, table': DutyTable, s: nat, i: nat)
    requires ((s, i) in table' <==> (s, i) in table) && ((s, i) in table ==> table'[(s, i)] == table[(s, i)])
    ensures DutiesOf(table', s, i) == DutiesOf(table, s, i)
  {
  }

  lemma {:induction false} MembersStep(committees: seq<Committee>, n: nat, validators: ValidatorSet, s: nat, i: nat)
    requires n < |committees| && MembersKnown(committees, validators)
    ensures MembersKnown(committees[..n], validators) && MembersKnown(committees[..n + 1], validators)
    ensures var c := committees[n];
            Members(committees[..n + 1], validators, s, i) ==
            Members(committees[..n], validators, s, i)
            + if c.slot == s && c.index == i then DutyList(c.validators, validators) else []
  {
    assert committees[..n + 1][..n] == committees[..n];
  }

  method BuildTable(committees: seq<Committee>, validators: ValidatorSet) returns (table: DutyTable)
    requires MembersKnown(committees, validators)
    ensures TableOf(table, committees, validators)
  {
    table := map[];
    for n := 0 to |committees|
      invariant TableOf(table, committees[..n], validators)
    {
      var table' := AddCommittee(table, committees[n], validators);
      TableStep(table, table', committees, n, validators);
      table := table';
    }
    assert committees[..|committees|] == committees;
  }

  method SumActive(validators: ValidatorSet, epoch: nat) returns (count: nat, balance: nat)
    ensures count == |ActiveSet(validators, epoch)|
    ensures balance == BalanceSum(ActiveSet(validators, epoch), Balances(validators))
  {
    count, balance := 0, 0;
    var rest := validators.Keys;
    ghost var seen: set<nat> := {};
    while rest != {}
      invariant rest <= validators.Keys
      invariant seen == set v | v in validators && v !in rest && IsActive(validators[v], epoch)
      invariant count == |seen| && balance == BalanceSum(seen, Balances(validators))
      decreases |rest|
    {
      var v :| v in rest;
      rest := rest - {v};
      if IsActive(validators[v], epoch) {
        count := count + 1;
        balance := balance + validators[v].effectiveBalance;
        BalanceSumAdds(seen, Balances(validators), v);
        seen := seen + {v};
      }
    }
    assert seen == ActiveSet(validators, epoch);
  }

  lemma {:induction false} MemberDuties(committees: seq<Committee>, validators: ValidatorSet, slot: nat, index: nat,
                                        j: nat)
    requires MembersKnown(committees, validators) && j < |Members(committees, validators, slot, index)|
    ensures var d := Members(committees, validators, slot, index)[j];
            && d.validator in validators && d.balance == validators[d.validator].effectiveBalance
            && IsMember(committees, d.validator)
    decreases |committees|
  {
    var n := |committees| - 1;
    var front := Members(committees[..n], validators, slot, index);
    if j < |front| {
      MemberDuties(committees[..n], validators, slot, index, j);
      var v := front[j].validator;
      var i :| 0 <= i < n && v in committees[..n][i].validators;
      assert v in committees[i].validators;
    } else {
      var c := committees[n];
      assert Members(committees, validators, slot, index)[j] == DutyList(c.validators, validators)[j - |front|];
    }
  }

  /** A table built from one validator set gives every validator one balance, and only committee
      members are on duty. */
  lemma {:induction false} BuiltTableConsistent(table: DutyTable, committees: seq<Committee>, validators: ValidatorSet)
    requires MembersKnown(committees, validators) && TableOf(table, committees, validators)
    ensures Consistent(table, Balances(validators))
    ensures forall v :: OnDuty(table, v) ==> v in validators && IsMember(committees, v)
  {
    forall k, i | k in table && 0 <= i < |table[k]|
      ensures var d := table[k][i];
              && d.validator in validators && d.balance == validators[d.validator].effectiveBalance
              && IsMember(committees, d.validator)
    {
      assert DutiesOf(table, k.0, k.1) == table[k];
      MemberDuties(committees, validators, k.0, k.1, i);
    }
  }

  /** When every committee member is an active validator, no chain reports more than all of the
      active balance: percentages stay within 100. */
  lemma {:induction false} TotalWithinActiveBalance(env: Env, c: seq<Block>, committees: seq<Committee>,
                                                    validators: ValidatorSet)
    requires Foldable(env, c) && MembersKnown(committees, validators)
    requires var d := env.duties[c[0].parent.value];
             && TableOf(d.table, committees, validators)
             && d.validatorBalance == BalanceSum(ActiveSet(validators, env.epoch), Balances(validators))
    requires forall v :: IsMember(committees, v) ==> v in validators && IsActive(validators[v], env.epoch)
    ensures var v := FoldChain(env, c);
            v.current.totalAmount + v.next.totalAmount <= env.duties[c[0].parent.value].validatorBalance
  {
    var table := env.duties[c[0].parent.value].table;
    BuiltTableConsistent(table, committees, validators);
    TotalWithinDuties(env, c, Balances(validators), ActiveSet(validators, env.epoch));
  }

  ghost predicate HasBalances(table: DutyTable) {
    exists bal: map<nat, nat> :: Consistent(table, bal)
  }

  /** The duty table of an epoch is stored under roots of blocks in front of the epoch, and gives
      every validator one balance. */
  ghost predicate DutiesStored(dutyMap: map<nat, map<Root, Duties>>, slotsPerEpoch: nat, slots: map<Root, nat>) {
    forall e, r :: e in dutyMap && r in dutyMap[e] ==>
      r in slots && slots[r] < e * slotsPerEpoch && HasBalances(dutyMap[e][r].table)
  }

  /** The entry stored for an epoch and a dependent root. */
  ghost function Entry(dutyMap: map<nat, map<Root, Duties>>, epoch: nat, r: Root): Option<Duties> {
    if epoch in dutyMap && r in dutyMap[epoch] then Some(dutyMap[epoch][r]) else None
  }

  lemma {:induction false} EarlierEpoch(p: nat, b: nat, n: nat)
    requires n > 0 && p < b && p / n != b / n
    ensures p < b / n * n
  {
    var q, m := p / n, b / n;
    assert (q + 1) * n == q * n + n && (m + 1) * n == m * n + n;
    ProductsOrdered(n);
  }
}
