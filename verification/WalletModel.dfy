/**
The wallet as a state machine. A build takes two steps, around the call of its build function, and
holds the build mutex from one to the other: everything but a second build may come in between.
All other operations are one atomic step; assertoor guards the pending side and the confirmed side
by different mutexes, here a step is exclusive. What the chain, the clients and the callers decide is
carried by the step.
*/
module WalletModel {
  import opened BlockTree

  /** Only the parts of a transaction and of a receipt that the wallet looks at. */
  datatype Tx = Tx(nonce: nat, value: nat, hash: nat)
  datatype Receipt = Receipt(txHash: nat, effectiveGasPrice: nat, gasUsed: nat)

  /** The status a waiter of one nonce blocks on; `closes` counts how often its channel was closed. */
  datatype NonceStatus = NonceStatus(nonce: nat, closes: nat, receipt: Option<Receipt>)

  /** `statuses` is the store of all statuses ever handed out, `waiters` registers the index of the
      status of a nonce, `building` is the nonce supplied to the open build, `built` is the history of
      built transactions since the last load. */
  datatype State = State(
    isReady: bool,
    pendingNonce: nat, pendingBalance: int,
    confirmedNonce: nat, confirmedBalance: int, lastConfirmation: nat,
    waiters: map<nat, nat>, statuses: seq<NonceStatus>,
    building: Option<nat>, built: seq<Tx>)

  const INITIAL := State(false, 0, 0, 0, 0, 0, map[], [], None, [])

  datatype Step =
    | Load(nonce: nat, balance: int)                              // first load and every resync
    | Begin                                                       // a build reads its nonce
    | Finish(result: Option<Tx>)                                  // None: build function or signing failed
    | UseNonce(increase: bool)
    | Register(target: nat)
    | Include(block: nat, tx: Tx, receipt: Option<Receipt>)
    | Recover(number: nat, lastNonce: Option<nat>)                // None: the nonce request failed
    | Receive(value: nat)

  predicate Registered(s: State, i: nat)
    requires i < |s.statuses|
  {
    s.statuses[i].nonce in s.waiters && s.waiters[s.statuses[i].nonce] == i
  }

  /** Closes and unregisters every waiter below `cut`; the waiter of nonce `at` also gets the receipt. */
  function CloseBelow(s: State, cut: nat, at: Option<nat>, receipt: Option<Receipt>): State {
    s.(waiters := map n | n in s.waiters && n >= cut :: s.waiters[n],
       statuses := seq(|s.statuses|, i requires 0 <= i < |s.statuses| => CloseStatus(s, i, cut, at, receipt)))
  }

  function CloseStatus(s: State, i: nat, cut: nat, at: Option<nat>, receipt: Option<Receipt>): NonceStatus
    requires i < |s.statuses|
  {
    var c := s.statuses[i];
    if Registered(s, i) && c.nonce < cut
    then c.(closes := c.closes + 1, receipt := if at == Some(c.nonce) then receipt else c.receipt)
    else c
  }

  function Fee(r: Receipt): nat { r.effectiveGasPrice * r.gasUsed }

  function IncludeBalances(s: State, tx: Tx, receipt: Option<Receipt>): State {
    if receipt == None then s
    else
      var fee := Fee(receipt.value);
      s.(confirmedBalance := s.confirmedBalance - tx.value - fee, pendingBalance := s.pendingBalance - fee)
  }

  function ConfirmNonce(s: State, nonce: nat): State {
    var t := s.(confirmedNonce := nonce + 1);
    if t.confirmedNonce > t.pendingNonce
    then t.(pendingNonce := t.confirmedNonce, pendingBalance := t.confirmedBalance)
    else t
  }

  predicate Ignored(s: State, tx: Tx) {
    !s.isReady || s.confirmedNonce > tx.nonce
  }

  function Settle(s: State, nonce: nat, receipt: Option<Receipt>): State {
    ConfirmNonce(CloseBelow(s, nonce + 1, Some(nonce), receipt), nonce)
  }

  function IncludeTx(s: State, block: nat, tx: Tx, receipt: Option<Receipt>): State {
    if Ignored(s, tx) then s
    else Settle(IncludeBalances(s.(lastConfirmation := block), tx, receipt), tx.nonce, receipt)
  }

  function Apply(s: State, step: Step): State {
    match step
    case Load(nonce, balance) =>
      s.(isReady := true, pendingNonce := nonce, confirmedNonce := nonce,
         pendingBalance := balance, confirmedBalance := balance, built := [])
    case Begin =>
      if !s.isReady || s.building.Some? then s else s.(building := Some(s.pendingNonce))
    case Finish(result) =>
      if s.building == None then s
      else if result == None then s.(building := None)
      else
        var tx := result.value;
        s.(pendingNonce := if s.pendingNonce < tx.nonce + 1 then tx.nonce + 1 else s.pendingNonce,
           pendingBalance := s.pendingBalance - tx.value, building := None, built := s.built + [tx])
    case UseNonce(increase) =>
      if increase then s.(pendingNonce := s.pendingNonce + 1) else s
    case Register(target) =>
      if !s.isReady || s.confirmedNonce > target || target in s.waiters then s
      else s.(waiters := s.waiters[target := |s.statuses|], statuses := s.statuses + [NonceStatus(target, 0, None)])
    case Include(block, tx, receipt) => IncludeTx(s, block, tx, receipt)
    case Recover(number, lastNonce) =>
      if !s.isReady || s.waiters == map[] || number <= s.lastConfirmation + 10 then s
      else
        var t := s.(lastConfirmation := number);
        if lastNonce == None || t.confirmedNonce >= lastNonce.value then t
        else CloseBelow(t, lastNonce.value, None, None)
    case Receive(value) =>
      if !s.isReady then s
      else s.(pendingBalance := s.pendingBalance + value, confirmedBalance := s.confirmedBalance + value)
  }

  function Exec(s: State, steps: seq<Step>): State {
    if steps == [] then s else Apply(Exec(s, steps[..|steps| - 1]), steps[|steps| - 1])
  }

  // ----- nonces and waiters -----

  /** Every status is registered under its nonce and still open, or unregistered and closed once. */
  ghost predicate ClosedOnce(s: State) {
    && (forall n :: n in s.waiters ==> s.waiters[n] < |s.statuses| && s.statuses[s.waiters[n]].nonce == n)
    && (forall i :: 0 <= i < |s.statuses| ==> s.statuses[i].closes == if Registered(s, i) then 0 else 1)
    && s.confirmedNonce <= s.pendingNonce
  }

  /** No waiter is left below the confirmed nonce. */
  ghost predicate NoneBelow(s: State) {
    forall n :: n in s.waiters ==> n >= s.confirmedNonce
  }

  lemma {:induction false} CloseBelowKeeps(s: State, cut: nat, at: Option<nat>, receipt: Option<Receipt>)
    requires ClosedOnce(s)
    ensures var t := CloseBelow(s, cut, at, receipt);
            ClosedOnce(t) && forall n :: n in t.waiters <==> n in s.waiters && n >= cut
  {
  }

  /** Every step keeps the waiter structure; only a load can lower the confirmed nonce or leave
      waiters below it, and it does the latter exactly when a waiter is older than the loaded nonce. */
  lemma {:induction false} StepKeepsWaiters(s: State, step: Step)
    requires ClosedOnce(s)
    ensures ClosedOnce(Apply(s, step))
    ensures !step.Load? ==> Apply(s, step).confirmedNonce >= s.confirmedNonce
    ensures !step.Load? && NoneBelow(s) ==> NoneBelow(Apply(s, step))
    ensures step.Load? ==> (NoneBelow(Apply(s, step)) <==> forall n :: n in s.waiters ==> n >= step.nonce)
  {
    match step
    case Register(target) => RegisterKeeps(s, target);
    case Include(block, tx, receipt) => IncludeKeeps(s, block, tx, receipt);
    case Recover(number, lastNonce) =>
      SameWaiters(s, s.(lastConfirmation := number));
      if lastNonce.Some? {
        CloseBelowKeeps(s.(lastConfirmation := number), lastNonce.value, None, None);
      }
    case _ => SameWaiters(s, Apply(s, step));
  }

  lemma {:induction false} RegisterKeeps(s: State, target: nat)
    requires ClosedOnce(s)
    ensures ClosedOnce(Apply(s, Register(target)))
    ensures NoneBelow(s) ==> NoneBelow(Apply(s, Register(target)))
  {
  }

  /** An inclusion that counts leaves no waiter at or below the included nonce, also when a resync
      had left waiters behind. */
  lemma {:induction false} IncludeKeeps(s: State, block: nat, tx: Tx, receipt: Option<Receipt>)
    requires ClosedOnce(s)
    ensures var t := IncludeTx(s, block, tx, receipt);
            && ClosedOnce(t) && t.confirmedNonce >= s.confirmedNonce && (NoneBelow(s) ==> NoneBelow(t))
            && (!Ignored(s, tx) ==> t.confirmedNonce == tx.nonce + 1 && NoneBelow(t))
  {
    if !Ignored(s, tx) {
      var a := IncludeBalances(s.(lastConfirmation := block), tx, receipt);
      assert a.waiters == s.waiters && a.statuses == s.statuses && a.confirmedNonce == s.confirmedNonce
             && a.pendingNonce == s.pendingNonce;
      SameWaiters(s, a);
      CloseAndConfirm(a, tx.nonce, receipt);
    }
  }

  lemma {:induction false} SameWaiters(s: State, t: State)
    requires ClosedOnce(s) && t.waiters == s.waiters && t.statuses == s.statuses && t.confirmedNonce <= t.pendingNonce
    ensures ClosedOnce(t)
  {
    assert forall i :: 0 <= i < |s.statuses| ==> Registered(t, i) == Registered(s, i);
  }

  lemma {:induction false} CloseAndConfirm(s: State, nonce: nat, receipt: Option<Receipt>)
    requires ClosedOnce(s)
    ensures var t := Settle(s, nonce, receipt);
            ClosedOnce(t) && NoneBelow(t) && t.confirmedNonce == nonce + 1
  {
    CloseBelowKeeps(s, nonce + 1, Some(nonce), receipt);
    ConfirmKeeps(CloseBelow(s, nonce + 1, Some(nonce), receipt), nonce);
  }

  lemma {:induction false} ConfirmKeeps(s: State, nonce: nat)
    requires ClosedOnce(s) && forall n :: n in s.waiters ==> n > nonce
    ensures ClosedOnce(ConfirmNonce(s, nonce)) && NoneBelow(ConfirmNonce(s, nonce))
    ensures ConfirmNonce(s, nonce).confirmedNonce == nonce + 1
  {
    SameWaiters(s, ConfirmNonce(s, nonce));
  }

  /** In every run between two loads. */
  lemma {:induction false} RunKeepsWaiters(s: State, steps: seq<Step>)
    requires ClosedOnce(s) && NoneBelow(s)
    requires forall i :: 0 <= i < |steps| ==> !steps[i].Load?
    ensures var t := Exec(s, steps);
            ClosedOnce(t) && NoneBelow(t) && t.confirmedNonce >= s.confirmedNonce
    decreases |steps|
  {
    if steps != [] {
      var front := steps[..|steps| - 1];
      RunKeepsWaiters(s, front);
      StepKeepsWaiters(Exec(s, front), steps[|steps| - 1]);
    }
  }

  /** In every run at all, resyncs included: each channel is closed at most once and exactly when its
      status is unregistered. */
  lemma {:induction false} RunClosesOnce(steps: seq<Step>)
    ensures ClosedOnce(Exec(INITIAL, steps))
    decreases |steps|
  {
    if steps != [] {
      RunClosesOnce(steps[..|steps| - 1]);
      StepKeepsWaiters(Exec(INITIAL, steps[..|steps| - 1]), steps[|steps| - 1]);
    }
  }

  /** A status changes in one step only, the one that closes it; a receipt is delivered only by the
      inclusion of a transaction with exactly the nonce waited for. */
  lemma {:induction false} StatusChangesOnce(s: State, step: Step, i: nat)
    requires ClosedOnce(s) && i < |s.statuses|
    ensures var t := Apply(s, step);
            && i < |t.statuses| && t.statuses[i].nonce == s.statuses[i].nonce
            && (t.statuses[i] != s.statuses[i] ==> s.statuses[i].closes == 0 && t.statuses[i].closes == 1)
            && (t.statuses[i].receipt != s.statuses[i].receipt ==>
                  step.Include? && step.tx.nonce == s.statuses[i].nonce && t.statuses[i].receipt == step.receipt)
  {
    var t := Apply(s, step);
    if step.Include? && !Ignored(s, step.tx) {
      var a := IncludeBalances(s.(lastConfirmation := step.block), step.tx, step.receipt);
      assert t.statuses[i] == CloseStatus(a, i, step.tx.nonce + 1, Some(step.tx.nonce), step.receipt);
    } else if step.Recover? && t.statuses != s.statuses {
      var a := s.(lastConfirmation := step.number);
      assert t.statuses[i] == CloseStatus(a, i, step.lastNonce.value, None, None);
    }
  }

  /** The step reports that the chain has passed nonce `n`. */
  predicate Passes(s: State, step: Step, n: nat) {
    match step
    case Include(_, tx, _) => !Ignored(s, tx) && n <= tx.nonce
    case Recover(number, lastNonce) =>
      && s.isReady && number > s.lastConfirmation + 10
      && lastNonce.Some? && s.confirmedNonce < lastNonce.value && n < lastNonce.value
    case _ => false
  }

  /** A waiter is released exactly when the chain has passed its nonce; until then it keeps its status. */
  lemma {:induction false} ReleasedWhenPassed(s: State, step: Step, n: nat)
    requires ClosedOnce(s) && n in s.waiters
    ensures var t := Apply(s, step);
            && (n in t.waiters <==> !Passes(s, step, n))
            && (n in t.waiters ==> t.waiters[n] == s.waiters[n])
            && (n in t.waiters ==> t.statuses[t.waiters[n]] == s.statuses[s.waiters[n]])
            && (n !in t.waiters ==> t.statuses[s.waiters[n]].closes == 1)
  {
    var t := Apply(s, step);
    var i := s.waiters[n];
    if step.Include? && !Ignored(s, step.tx) {
      var a := IncludeBalances(s.(lastConfirmation := step.block), step.tx, step.receipt);
      assert t.statuses[i] == CloseStatus(a, i, step.tx.nonce + 1, Some(step.tx.nonce), step.receipt);
    } else if step.Recover? && t.statuses != s.statuses {
      assert t.statuses[i] == CloseStatus(s.(lastConfirmation := step.number), i, step.lastNonce.value, None, None);
    }
  }

  /** Step `m` of the run reports it. */
  predicate PassesAt(s: State, steps: seq<Step>, n: nat, m: nat)
    requires m < |steps|
  {
    Passes(Exec(s, steps[..m]), steps[m], n)
  }

  /** No step of the run does. */
  predicate NeverPassed(s: State, steps: seq<Step>, n: nat) {
    forall m :: 0 <= m < |steps| ==> !PassesAt(s, steps, n, m)
  }

  lemma {:induction false} NeverPassedStep(s: State, steps: seq<Step>, n: nat)
    requires steps != []
    ensures var k := |steps| - 1;
            NeverPassed(s, steps, n) <==> NeverPassed(s, steps[..k], n) && !Passes(Exec(s, steps[..k]), steps[k], n)
  {
    var k := |steps| - 1;
    assert PassesAt(s, steps, n, k) <==> Passes(Exec(s, steps[..k]), steps[k], n);
    forall m | 0 <= m < k ensures PassesAt(s, steps[..k], n, m) <==> PassesAt(s, steps, n, m) {
      assert steps[..k][..m] == steps[..m];
    }
  }

  /** Along every run, resyncs included: a waiter is still blocked if and only if no step reported that
      the chain has passed its nonce. */
  lemma {:induction false} BlockedIffNeverPassed(s: State, steps: seq<Step>, n: nat)
    requires ClosedOnce(s) && n in s.waiters
    ensures var t := Exec(s, steps);
            var i := s.waiters[n];
            && ClosedOnce(t) && i < |t.statuses| && t.statuses[i].nonce == n
            && (t.statuses[i].closes == 0 <==> NeverPassed(s, steps, n))
    decreases |steps|
  {
    if steps != [] {
      var k := |steps| - 1;
      BlockedIffNeverPassed(s, steps[..k], n);
      NeverPassedStep(s, steps, n);
      BlockedStep(Exec(s, steps[..k]), steps[k], s.waiters[n]);
    }
  }

  lemma {:induction false} BlockedStep(t: State, step: Step, i: nat)
    requires ClosedOnce(t) && i < |t.statuses|
    ensures var u := Apply(t, step);
            && ClosedOnce(u) && i < |u.statuses| && u.statuses[i].nonce == t.statuses[i].nonce
            && (u.statuses[i].closes == 0 <==> t.statuses[i].closes == 0 && !Passes(t, step, t.statuses[i].nonce))
  {
    StepKeepsWaiters(t, step);
    StatusChangesOnce(t, step, i);
    if Registered(t, i) {
      ReleasedWhenPassed(t, step, t.statuses[i].nonce);
    }
  }

  // ----- what a waiter is told -----

  datatype Outcome = Confirmed(receipt: Receipt) | Replaced | Reload

  /** What a waiter returns once its channel is closed: its own receipt, nothing when another
      transaction took the nonce, or a fresh query when no receipt was delivered. */
  function AwaitOutcome(status: Option<NonceStatus>, tx: Tx): Outcome {
    if status == None || status.value.receipt == None then Reload
    else if status.value.receipt.value.txHash == tx.hash then Confirmed(status.value.receipt.value)
    else Replaced
  }

  /** Clients list the receipts of a block in the order of its transactions: each is paired with its own. */
  predicate OwnReceipts(steps: seq<Step>) {
    forall k :: 0 <= k < |steps| && steps[k].Include? && steps[k].receipt.Some?
      ==> steps[k].receipt.value.txHash == steps[k].tx.hash
  }

  /** Step `k` of the run counts and includes a transaction of this nonce with this receipt. */
  ghost predicate IncludedAt(steps: seq<Step>, k: int, nonce: nat, receipt: Receipt) {
    && 0 <= k < |steps| && steps[k].Include? && steps[k].tx.nonce == nonce && steps[k].receipt == Some(receipt)
    && !Ignored(Exec(INITIAL, steps[..k]), steps[k].tx)
  }

  /** A receipt that reached a status was included under exactly the nonce waited for. */
  lemma {:induction false} ReceiptWasIncluded(steps: seq<Step>, i: nat) returns (k: nat)
    requires i < |Exec(INITIAL, steps).statuses| && Exec(INITIAL, steps).statuses[i].receipt.Some?
    ensures var c := Exec(INITIAL, steps).statuses[i]; IncludedAt(steps, k, c.nonce, c.receipt.value)
    decreases |steps|
  {
    k := |steps| - 1;
    var front := steps[..k];
    var s := Exec(INITIAL, front);
    RunClosesOnce(front);
    if i < |s.statuses| {
      StatusChangesOnce(s, steps[k], i);
      if Apply(s, steps[k]).statuses[i].receipt == s.statuses[i].receipt {
        k := ReceiptWasIncluded(front, i);
        assert front[..k] == steps[..k];
      } else if Ignored(s, steps[k].tx) {
        IgnoredKeepsStatuses(s, steps[k]);
      }
    } else {
      NewStatusHasNoReceipt(s, steps[k], i);
    }
  }

  lemma {:induction false} IgnoredKeepsStatuses(s: State, step: Step)
    requires step.Include? && Ignored(s, step.tx)
    ensures Apply(s, step) == s
  {
  }

  lemma {:induction false} NewStatusHasNoReceipt(s: State, step: Step, i: nat)
    requires |s.statuses| <= i < |Apply(s, step).statuses|
    ensures Apply(s, step).statuses[i].receipt == None
  {
  }

  /** In every run: a waiter is handed a receipt only if its own transaction was included with that
      receipt, and is told nothing only if a different transaction was included in its place. */
  lemma {:induction false} OutcomeIsTrue(steps: seq<Step>, i: nat, tx: Tx)
    requires i < |Exec(INITIAL, steps).statuses| && Exec(INITIAL, steps).statuses[i].nonce == tx.nonce
    requires OwnReceipts(steps)
    ensures var o := AwaitOutcome(Some(Exec(INITIAL, steps).statuses[i]), tx);
            && (o.Confirmed? ==> exists k :: IncludedAt(steps, k, tx.nonce, o.receipt) && steps[k].tx.hash == tx.hash)
            && (o.Replaced? ==> exists k, r :: IncludedAt(steps, k, tx.nonce, r) && steps[k].tx.hash != tx.hash)
  {
    var c := Exec(INITIAL, steps).statuses[i];
    if c.receipt.Some? {
      var k := ReceiptWasIncluded(steps, i);
      assert IncludedAt(steps, k, tx.nonce, c.receipt.value);
    }
  }

  /** Conversely: once a transaction is included with its receipt while a waiter for it is registered,
      that waiter is told so, whatever happens afterwards. */
  lemma {:induction false} InclusionIsReported(s: State, block: nat, tx: Tx, r: Receipt, more: seq<Step>)
    requires ClosedOnce(s) && tx.nonce in s.waiters && !Ignored(s, tx) && r.txHash == tx.hash
    ensures var t := Exec(Apply(s, Include(block, tx, Some(r))), more);
            var i := s.waiters[tx.nonce];
            && ClosedOnce(t) && i < |t.statuses| && t.statuses[i].closes == 1
            && AwaitOutcome(Some(t.statuses[i]), tx) == Confirmed(r)
    decreases |more|
  {
    var i := s.waiters[tx.nonce];
    if more == [] {
      IncludeKeeps(s, block, tx, Some(r));
      var a := IncludeBalances(s.(lastConfirmation := block), tx, Some(r));
      var t := Apply(s, Include(block, tx, Some(r)));
      assert t.statuses[i] == CloseStatus(a, i, tx.nonce + 1, Some(tx.nonce), Some(r));
    } else {
      var k := |more| - 1;
      InclusionIsReported(s, block, tx, r, more[..k]);
      var t := Exec(Apply(s, Include(block, tx, Some(r))), more[..k]);
      StepKeepsWaiters(t, more[k]);
      StatusChangesOnce(t, more[k], i);
    }
  }


  lemma {:induction false} RunLeavesOpenEmpty(steps: seq<Step>, i: nat)
    requires i < |Exec(INITIAL, steps).statuses|
    ensures var c := Exec(INITIAL, steps).statuses[i]; c.closes == 0 ==> c.receipt == None
    decreases |steps|
  {
    if steps != [] {
      var k := |steps| - 1;
      var s := Exec(INITIAL, steps[..k]);
      RunClosesOnce(steps[..k]);
      if i < |s.statuses| {
        RunLeavesOpenEmpty(steps[..k], i);
        StatusChangesOnce(s, steps[k], i);
      } else {
        NewStatusHasNoReceipt(s, steps[k], i);
      }
    }
  }

  /** What the step that releases the waiter of a transaction makes it return. */
  function Verdict(step: Step, tx: Tx): Outcome {
    if step.Include? && step.tx.nonce == tx.nonce && step.receipt.Some?
    then if step.receipt.value.txHash == tx.hash then Confirmed(step.receipt.value) else Replaced
    else Reload
  }

  /** In every run, whatever happens afterwards: a waiter returns its own receipt, nothing, or queries
      again, exactly as the step that passed its nonce decides. */
  lemma {:induction false} ReleaseDecides(steps: seq<Step>, step: Step, more: seq<Step>, tx: Tx)
    requires var s := Exec(INITIAL, steps); tx.nonce in s.waiters && Passes(s, step, tx.nonce)
    ensures AwaitOutcome(None, tx) == Reload
    ensures var s, t := Exec(INITIAL, steps), Exec(Apply(Exec(INITIAL, steps), step), more);
            var i := s.waiters[tx.nonce];
            && ClosedOnce(t) && i < |t.statuses| && t.statuses[i].closes == 1
            && AwaitOutcome(Some(t.statuses[i]), tx) == Verdict(step, tx)
    decreases |more|
  {
    var s := Exec(INITIAL, steps);
    RunClosesOnce(steps);
    var i := s.waiters[tx.nonce];
    if more == [] {
      RunLeavesOpenEmpty(steps, i);
      StepKeepsWaiters(s, step);
      ReleaseStep(s, step, tx.nonce);
    } else {
      var k := |more| - 1;
      ReleaseDecides(steps, step, more[..k], tx);
      var t := Exec(Apply(s, step), more[..k]);
      StepKeepsWaiters(t, more[k]);
      StatusChangesOnce(t, more[k], i);
    }
  }

  lemma {:induction false} ReleaseStep(s: State, step: Step, n: nat)
    requires ClosedOnce(s) && n in s.waiters && Passes(s, step, n)
    ensures var t, i := Apply(s, step), s.waiters[n];
            && i < |t.statuses| && t.statuses[i].closes == 1
            && t.statuses[i].receipt ==
               if step.Include? && step.tx.nonce == n then step.receipt else s.statuses[i].receipt
  {
    var t, i := Apply(s, step), s.waiters[n];
    if step.Include? {
      var a := IncludeBalances(s.(lastConfirmation := step.block), step.tx, step.receipt);
      assert t.statuses[i] == CloseStatus(a, i, step.tx.nonce + 1, Some(step.tx.nonce), step.receipt);
    } else {
      assert t.statuses[i] == CloseStatus(s.(lastConfirmation := step.number), i, step.lastNonce.value, None, None);
    }
  }

  // ----- when waiters are recovered -----

  /** The step notes block `n` as the last one with news: a counting inclusion in it, or a recovery. */
  predicate Notes(s: State, step: Step, n: nat) {
    match step
    case Include(block, tx, _) => !Ignored(s, tx) && block == n
    case Recover(number, _) => s.isReady && s.waiters != map[] && number > s.lastConfirmation + 10 && number == n
    case _ => false
  }

  lemma {:induction false} NotedBlockStays(s: State, step: Step, n: nat, steps: seq<Step>)
    requires Notes(s, step, n)
    requires forall k :: 0 <= k < |steps| && steps[k].Include? ==> steps[k].block >= n
    ensures Apply(s, step).lastConfirmation == n
    ensures Exec(Apply(s, step), steps).lastConfirmation >= n
    decreases |steps|
  {
    if steps != [] {
      NotedBlockStays(s, step, n, steps[..|steps| - 1]);
    }
  }

  /** No waiter is recovered within ten blocks of an inclusion or of a recovery. */
  lemma {:induction false} RecoveryWaits(s: State, step: Step, n: nat, steps: seq<Step>, m: nat, lastNonce: Option<nat>)
    requires Notes(s, step, n) && m <= n + 10
    requires forall k :: 0 <= k < |steps| && steps[k].Include? ==> steps[k].block >= n
    ensures var t := Exec(Apply(s, step), steps); Apply(t, Recover(m, lastNonce)) == t
  {
    NotedBlockStays(s, step, n, steps);
  }

  // ----- nonces handed to builders -----

  /** Every nonce built so far is below the pending nonce and below the one of the open build. */
  ghost predicate BuiltBelow(s: State) {
    forall i :: 0 <= i < |s.built| ==>
      s.built[i].nonce < s.pendingNonce && (s.building.Some? ==> s.built[i].nonce < s.building.value)
  }

  predicate NoLoad(steps: seq<Step>) {
    forall i :: 0 <= i < |steps| ==> !steps[i].Load?
  }

  lemma {:induction false} StepKeepsBuiltBelow(s: State, step: Step)
    ensures BuiltBelow(s) ==> BuiltBelow(Apply(s, step))
    ensures !step.Load? ==> Apply(s, step).pendingNonce >= s.pendingNonce && s.built <= Apply(s, step).built
  {
  }

  lemma {:induction false} NoncesOnlyGrow(s: State, steps: seq<Step>)
    requires NoLoad(steps)
    ensures var t := Exec(s, steps);
            t.pendingNonce >= s.pendingNonce && s.built <= t.built && (BuiltBelow(s) ==> BuiltBelow(t))
    decreases |steps|
  {
    if steps != [] {
      var front := steps[..|steps| - 1];
      NoncesOnlyGrow(s, front);
      StepKeepsBuiltBelow(Exec(s, front), steps[|steps| - 1]);
    }
  }

  /** In every run between two loads, whatever other callers and the chain do to the pending nonce: a
      build that uses its supplied nonce exceeds, so differs from, every nonce built before it. */
  lemma {:induction false} SuppliedExceedsBuilt(s: State, steps: seq<Step>, tx: Tx)
    requires BuiltBelow(s) && NoLoad(steps) && Exec(s, steps).building == Some(tx.nonce)
    ensures var t := Exec(s, steps);
            var u := Apply(t, Finish(Some(tx)));
            && u.built == t.built + [tx] && s.built <= t.built
            && (forall i :: 0 <= i < |t.built| ==> t.built[i].nonce < tx.nonce)
            && BuiltBelow(u) && u.pendingNonce >= t.pendingNonce >= s.pendingNonce
  {
    NoncesOnlyGrow(s, steps);
    StepKeepsBuiltBelow(Exec(s, steps), Finish(Some(tx)));
  }

  /** The step takes the pending nonce past the one that follows `n`. */
  predicate Overtakes(s: State, step: Step, n: nat) {
    match step
    case Finish(result) => s.building.Some? && result.Some? && result.value.nonce > n
    case UseNonce(increase) => increase && s.pendingNonce > n
    case Include(_, tx, _) => !Ignored(s, tx) && tx.nonce > n
    case _ => false
  }

  lemma {:induction false} StepOvertakes(s: State, step: Step, n: nat)
    requires !step.Load? && s.confirmedNonce <= s.pendingNonce
    ensures Apply(s, step).pendingNonce <= n + 1 <==> s.pendingNonce <= n + 1 && !Overtakes(s, step, n)
    ensures Apply(s, step).confirmedNonce <= Apply(s, step).pendingNonce
  {
  }

  /** Step `m` of the run overtakes. */
  predicate OvertakesAt(s: State, steps: seq<Step>, n: nat, m: nat)
    requires m < |steps|
  {
    Overtakes(Exec(s, steps[..m]), steps[m], n)
  }

  /** No step of the run does. */
  predicate NeverOvertaken(s: State, steps: seq<Step>, n: nat) {
    forall m :: 0 <= m < |steps| ==> !OvertakesAt(s, steps, n, m)
  }

  lemma {:induction false} NeverOvertakenStep(s: State, steps: seq<Step>, n: nat)
    requires steps != []
    ensures var k := |steps| - 1;
            NeverOvertaken(s, steps, n) <==>
            NeverOvertaken(s, steps[..k], n) && !Overtakes(Exec(s, steps[..k]), steps[k], n)
  {
    var k := |steps| - 1;
    assert OvertakesAt(s, steps, n, k) <==> Overtakes(Exec(s, steps[..k]), steps[k], n);
    forall m | 0 <= m < k ensures OvertakesAt(s, steps[..k], n, m) <==> OvertakesAt(s, steps, n, m) {
      assert steps[..k][..m] == steps[..m];
    }
  }

  lemma {:induction false} RunOvertakes(s: State, steps: seq<Step>, n: nat)
    requires NoLoad(steps) && s.confirmedNonce <= s.pendingNonce <= n + 1
    ensures Exec(s, steps).pendingNonce <= n + 1 <==> NeverOvertaken(s, steps, n)
    ensures Exec(s, steps).confirmedNonce <= Exec(s, steps).pendingNonce
    decreases |steps|
  {
    if steps != [] {
      var k := |steps| - 1;
      RunOvertakes(s, steps[..k], n);
      NeverOvertakenStep(s, steps, n);
      StepOvertakes(Exec(s, steps[..k]), steps[k], n);
    }
  }

  lemma {:induction false} ExecOne(s: State, step: Step)
    ensures Exec(s, [step]) == Apply(s, step)
  {
    assert [step][..0] == [];
    assert Exec(s, []) == s;
  }

  lemma {:induction false} ExecAdds(s: State, a: seq<Step>, b: seq<Step>)
    ensures Exec(s, a + b) == Exec(Exec(s, a), b)
    decreases |b|
  {
    if b == [] {
      assert a + b == a;
    } else {
      var k := |b| - 1;
      ExecAdds(s, a, b[..k]);
      assert (a + b)[..|a + b| - 1] == a + b[..k];
    }
  }

  /** From the moment a build has read its nonce, and after it finished with it at position `k`: the
      next build is supplied the next nonce if and only if no step overtook it. While the build is open
      one more claim of the same nonce is absorbed. */
  lemma {:induction false} NextIsOneHigher(s: State, steps: seq<Step>, k: nat, tx: Tx)
    requires s.building == Some(tx.nonce) && s.pendingNonce == tx.nonce && s.confirmedNonce <= s.pendingNonce
    requires NoLoad(steps) && k < |steps| && steps[k] == Finish(Some(tx)) && Exec(s, steps[..k]).building.Some?
    ensures Exec(s, steps).pendingNonce > tx.nonce
    ensures Exec(s, steps).pendingNonce == tx.nonce + 1 <==> NeverOvertaken(s, steps, tx.nonce)
  {
    RunOvertakes(s, steps, tx.nonce);
    NonceAfterFinish(s, steps, k, tx);
  }

  lemma {:induction false} NonceAfterFinish(s: State, steps: seq<Step>, k: nat, tx: Tx)
    requires NoLoad(steps) && k < |steps| && steps[k] == Finish(Some(tx)) && Exec(s, steps[..k]).building.Some?
    ensures Exec(s, steps).pendingNonce > tx.nonce
  {
    assert steps == steps[..k + 1] + steps[k + 1..] && steps[..k + 1][..k] == steps[..k];
    ExecAdds(s, steps[..k + 1], steps[k + 1..]);
    NoncesOnlyGrow(Exec(s, steps[..k + 1]), steps[k + 1..]);
  }

  /** The step moves the pending nonce. */
  predicate Raises(s: State, step: Step) {
    match step
    case Finish(result) => s.building.Some? && result.Some? && result.value.nonce >= s.pendingNonce
    case UseNonce(increase) => increase
    case Include(_, tx, _) => !Ignored(s, tx) && tx.nonce >= s.pendingNonce
    case _ => false
  }

  predicate NeverRaised(s: State, steps: seq<Step>) {
    steps == [] || (NeverRaised(s, steps[..|steps| - 1]) && !Raises(Exec(s, steps[..|steps| - 1]), steps[|steps| - 1]))
  }

  lemma {:induction false} StepRaises(s: State, step: Step)
    requires !step.Load? && s.confirmedNonce <= s.pendingNonce
    ensures Apply(s, step).pendingNonce == s.pendingNonce <==> !Raises(s, step)
    ensures Apply(s, step).pendingNonce >= s.pendingNonce
    ensures Apply(s, step).confirmedNonce <= Apply(s, step).pendingNonce
  {
  }

  lemma {:induction false} RunRaises(s: State, steps: seq<Step>)
    requires NoLoad(steps) && s.confirmedNonce <= s.pendingNonce
    ensures Exec(s, steps).pendingNonce == s.pendingNonce <==> NeverRaised(s, steps)
    ensures Exec(s, steps).pendingNonce >= s.pendingNonce
    ensures Exec(s, steps).confirmedNonce <= Exec(s, steps).pendingNonce
    decreases |steps|
  {
    if steps != [] {
      RunRaises(s, steps[..|steps| - 1]);
      StepRaises(Exec(s, steps[..|steps| - 1]), steps[|steps| - 1]);
    }
  }

  /** After a load a build is supplied the loaded nonce if and only if no step in between drew a nonce,
      built with one at or above it or included one. */
  lemma {:induction false} FirstBuildAfterLoad(s: State, nonce: nat, balance: int, steps: seq<Step>)
    requires NoLoad(steps) && Exec(Apply(s, Load(nonce, balance)), steps).building == None
    ensures Exec(Apply(s, Load(nonce, balance)), steps + [Begin]).building == Some(nonce)
            <==> NeverRaised(Apply(s, Load(nonce, balance)), steps)
  {
    var t := Apply(s, Load(nonce, balance));
    RunRaises(t, steps);
    StaysReady(t, steps);
    assert (steps + [Begin])[..|steps|] == steps;
  }

  lemma {:induction false} StaysReady(s: State, steps: seq<Step>)
    requires s.isReady
    ensures Exec(s, steps).isReady
    decreases |steps|
  {
    if steps != [] {
      StaysReady(s, steps[..|steps| - 1]);
    }
  }

  // ----- nonces taken by different callers -----

  /** The nonce a step takes for a transaction or an authorization. */
  function Taken(s: State, step: Step): Option<nat> {
    match step
    case UseNonce(increase) => if increase then Some(s.pendingNonce) else None
    case Finish(result) =>
      if s.building.Some? && result.Some? && s.building.value == result.value.nonce then s.building else None
    case _ => None
  }

  predicate NoFinish(steps: seq<Step>) {
    forall i :: 0 <= i < |steps| ==> !steps[i].Finish?
  }

  /** Two takers of one run get the same nonce if and only if the first is a `UseNextNonce(true)` that
      runs inside a build whose nonce nobody has passed yet, and the second is the end of that build. */
  lemma {:induction false} TakenTwiceIff(s: State, first: Step, between: seq<Step>, last: Step)
    requires Taken(s, first).Some? && NoLoad(between)
    requires Taken(Exec(Apply(s, first), between), last).Some?
    ensures Taken(s, first) == Taken(Exec(Apply(s, first), between), last) <==>
            first.UseNonce? && last.Finish? && s.building == Some(s.pendingNonce) && NoFinish(between)
  {
    AfterTaking(s, first, between);
  }

  /** The pending nonce has passed `n`, and so has the nonce of a build, unless it is still the build that
      was open when `n` was taken. */
  predicate Passed(t: State, n: nat, open: Option<nat>) {
    && t.pendingNonce > n
    && if open.Some? then t.building == open else t.building.Some? ==> t.building.value > n
  }

  lemma {:induction false} StepKeepsPassed(t: State, step: Step, n: nat, open: Option<nat>)
    requires !step.Load? && Passed(t, n, open)
    ensures Passed(Apply(t, step), n, if step.Finish? then None else open)
  {
    StepKeepsBuiltBelow(t, step);
  }

  /** The build that is open when a nonce is drawn. */
  function OpenAt(s: State, first: Step): Option<nat> {
    if first.UseNonce? then s.building else None
  }

  lemma {:induction false} AfterTaking(s: State, first: Step, between: seq<Step>)
    requires Taken(s, first).Some? && NoLoad(between)
    ensures Passed(Exec(Apply(s, first), between), Taken(s, first).value,
                   if NoFinish(between) then OpenAt(s, first) else None)
    decreases |between|
  {
    if between != [] {
      var k := |between| - 1;
      AfterTaking(s, first, between[..k]);
      assert NoFinish(between) <==> NoFinish(between[..k]) && !between[k].Finish? by {
        assert between == between[..k] + [between[k]];
      }
      var open := if NoFinish(between[..k]) then OpenAt(s, first) else None;
      StepKeepsPassed(Exec(Apply(s, first), between[..k]), between[k], Taken(s, first).value, open);
    }
  }

  /** A transaction that draws a nonce of its own wallet for an authorization while it is built: both
      carry the same nonce, and the pending nonce moves on by one only. */
  lemma {:induction false} AuthorizationTakesSameNonce(s: State, tx: Tx)
    requires s.isReady && s.building == None && tx.nonce == s.pendingNonce
    ensures var t := Apply(s, Begin);
            var u := Apply(t, UseNonce(true));
            && Taken(t, UseNonce(true)) == Taken(u, Finish(Some(tx))) == Some(tx.nonce)
            && Apply(u, Finish(Some(tx))).pendingNonce == s.pendingNonce + 1
  {
    var t := Apply(s, Begin);
    assert Exec(Apply(t, UseNonce(true)), []) == Apply(t, UseNonce(true));
    TakenTwiceIff(t, UseNonce(true), [], Finish(Some(tx)));
  }


  // ----- the balance equation -----

  /** Value of the built transactions with nonces in [lo, hi). */
  function ValueBetween(built: seq<Tx>, lo: nat, hi: nat): nat {
    if built == [] then 0
    else
      var tx := built[|built| - 1];
      ValueBetween(built[..|built| - 1], lo, hi) + if lo <= tx.nonce < hi then tx.value else 0
  }

  /** The pending balance is the confirmed one minus everything built and not yet confirmed. */
  ghost predicate Balanced(s: State) {
    BuiltBelow(s) && s.pendingBalance == s.confirmedBalance - ValueBetween(s.built, s.confirmedNonce, s.pendingNonce)
  }

  /** What a caller can check before the step: a build may not reuse a confirmed nonce, and the
      inclusion of a nonce the wallet already passed must spend exactly what was built for the
      nonces it confirms (nothing, when the receipt is missing). */
  predicate KeepsBalance(s: State, step: Step) {
    match step
    case Finish(result) =>
      s.building.Some? && result.Some? ==> result.value.nonce >= s.confirmedNonce || result.value.value == 0
    case Include(_, tx, receipt) =>
      !Ignored(s, tx) && tx.nonce < s.pendingNonce ==>
        ValueBetween(s.built, s.confirmedNonce, tx.nonce + 1) == if receipt.Some? then tx.value else 0
    case _ => true
  }

  lemma {:induction false} ValueSplits(built: seq<Tx>, lo: nat, mid: nat, hi: nat)
    requires lo <= mid <= hi
    ensures ValueBetween(built, lo, hi) == ValueBetween(built, lo, mid) + ValueBetween(built, mid, hi)
    decreases |built|
  {
    if built != [] {
      ValueSplits(built[..|built| - 1], lo, mid, hi);
    }
  }

  lemma {:induction false} ValueAbove(built: seq<Tx>, lo: nat, hi: nat)
    requires forall i :: 0 <= i < |built| ==> built[i].nonce < lo
    ensures ValueBetween(built, lo, hi) == 0
    decreases |built|
  {
    if built != [] {
      ValueAbove(built[..|built| - 1], lo, hi);
    }
  }

  /** The balance equation survives a step if and only if `KeepsBalance` holds before it. */
  lemma {:induction false} StepBalance(s: State, step: Step)
    requires Balanced(s) && s.confirmedNonce <= s.pendingNonce
    ensures Balanced(Apply(s, step)) <==> KeepsBalance(s, step)
  {
    var t := Apply(s, step);
    match step
    case Finish(result) =>
      if s.building.Some? && result.Some? {
        FinishBalance(s, result.value);
      }
    case UseNonce(increase) =>
      ValueSplits(s.built, s.confirmedNonce, s.pendingNonce, t.pendingNonce);
      ValueAbove(s.built, s.pendingNonce, t.pendingNonce);
    case Include(block, tx, receipt) =>
      if !Ignored(s, tx) {
        IncludeBalance(s, block, tx, receipt);
      }
    case _ =>
  }

  lemma {:induction false} FinishBalance(s: State, tx: Tx)
    requires Balanced(s) && s.confirmedNonce <= s.pendingNonce && s.building.Some?
    ensures Balanced(Apply(s, Finish(Some(tx)))) <==> KeepsBalance(s, Finish(Some(tx)))
  {
    var t := Apply(s, Finish(Some(tx)));
    StepKeepsBuiltBelow(s, Finish(Some(tx)));
    ValueSplits(s.built, s.confirmedNonce, s.pendingNonce, t.pendingNonce);
    ValueAbove(s.built, s.pendingNonce, t.pendingNonce);
    ValueAppends(s.built, tx, s.confirmedNonce, t.pendingNonce);
  }

  lemma {:induction false} ValueAppends(built: seq<Tx>, tx: Tx, lo: nat, hi: nat)
    ensures ValueBetween(built + [tx], lo, hi) ==
            ValueBetween(built, lo, hi) + if lo <= tx.nonce < hi then tx.value else 0
  {
    assert (built + [tx])[..|built|] == built;
  }

  lemma {:induction false} IncludeBalance(s: State, block: nat, tx: Tx, receipt: Option<Receipt>)
    requires Balanced(s) && s.confirmedNonce <= s.pendingNonce && !Ignored(s, tx)
    ensures Balanced(Apply(s, Include(block, tx, receipt))) <==> KeepsBalance(s, Include(block, tx, receipt))
  {
    var t := Apply(s, Include(block, tx, receipt));
    if tx.nonce < s.pendingNonce {
      ValueSplits(s.built, s.confirmedNonce, tx.nonce + 1, s.pendingNonce);
    } else {
      ValueAbove(s.built, t.confirmedNonce, t.pendingNonce);
    }
  }

  ghost predicate BalancedRun(s: State, steps: seq<Step>) {
    steps == [] ||
    (BalancedRun(s, steps[..|steps| - 1]) && KeepsBalance(Exec(s, steps[..|steps| - 1]), steps[|steps| - 1]))
  }

  lemma {:induction false} RunBalance(s: State, steps: seq<Step>)
    requires Balanced(s) && ClosedOnce(s) && BalancedRun(s, steps)
    ensures Balanced(Exec(s, steps)) && ClosedOnce(Exec(s, steps))
    decreases |steps|
  {
    if steps != [] {
      var front := steps[..|steps| - 1];
      RunBalance(s, front);
      StepBalance(Exec(s, front), steps[|steps| - 1]);
      StepKeepsWaiters(Exec(s, front), steps[|steps| - 1]);
    }
  }

  /** A load starts a balanced run from any state. */
  lemma {:induction false} LoadBalances(s: State, nonce: nat, balance: int)
    ensures Balanced(Apply(s, Load(nonce, balance)))
  {
    assert ValueBetween([], nonce, nonce) == 0;
  }

  /** The everyday case: the next transaction is the one built for that nonce, once, and its receipt
      is known. An inclusion from outside, at or above the pending nonce, is always fine. */
  lemma {:induction false} NextInclusionKeepsBalance(s: State, block: nat, tx: Tx, receipt: Receipt, k: nat)
    requires k < |s.built| && s.built[k] == tx && tx.nonce == s.confirmedNonce
    requires forall i :: 0 <= i < |s.built| && i != k ==> s.built[i].nonce != tx.nonce
    ensures KeepsBalance(s, Include(block, tx, Some(receipt)))
  {
    ValueOfOne(s.built, k);
  }

  lemma {:induction false} ValueOfOne(built: seq<Tx>, k: nat)
    requires k < |built| && forall i :: 0 <= i < |built| && i != k ==> built[i].nonce != built[k].nonce
    ensures ValueBetween(built, built[k].nonce, built[k].nonce + 1) == built[k].value
    decreases |built|
  {
    var n := |built| - 1;
    if k == n {
      ValueOfNone(built[..n], built[k].nonce);
    } else {
      ValueOfOne(built[..n], k);
    }
  }

  lemma {:induction false} ValueOfNone(built: seq<Tx>, nonce: nat)
    requires forall i :: 0 <= i < |built| ==> built[i].nonce != nonce
    ensures ValueBetween(built, nonce, nonce + 1) == 0
    decreases |built|
  {
    if built != [] {
      ValueOfNone(built[..|built| - 1], nonce);
    }
  }

  /** The everyday run: a build finishes with the nonce it was supplied, not confirmed meanwhile; an
      inclusion that counts is the next transaction built here, with its receipt, or comes from outside
      with a nonce at or above the pending one. */
  predicate Everyday(s: State, step: Step) {
    match step
    case Finish(result) =>
      s.building.Some? && result.Some? ==> s.confirmedNonce <= result.value.nonce == s.building.value
    case Include(_, tx, receipt) =>
      Ignored(s, tx) || tx.nonce >= s.pendingNonce || (receipt.Some? && tx.nonce == s.confirmedNonce && tx in s.built)
    case _ => true
  }

  ghost predicate EverydayRun(s: State, steps: seq<Step>) {
    forall m :: 0 <= m < |steps| ==> Everyday(Exec(s, steps[..m]), steps[m])
  }

  /** No nonce was built twice. */
  ghost predicate NoncesIncrease(s: State) {
    forall i, j :: 0 <= i < j < |s.built| ==> s.built[i].nonce < s.built[j].nonce
  }

  /** In every everyday run, resyncs included, the balance equation holds throughout. */
  lemma {:induction false} EverydayBalance(s: State, steps: seq<Step>)
    requires Balanced(s) && s.confirmedNonce <= s.pendingNonce && NoncesIncrease(s) && EverydayRun(s, steps)
    ensures var t := Exec(s, steps); Balanced(t) && t.confirmedNonce <= t.pendingNonce && NoncesIncrease(t)
    decreases |steps|
  {
    if steps != [] {
      var k := |steps| - 1;
      var front := steps[..k];
      assert forall m :: 0 <= m < k ==> front[..m] == steps[..m] && front[m] == steps[m];
      EverydayBalance(s, front);
      EverydayStep(Exec(s, front), steps[k]);
    }
  }

  lemma {:induction false} EverydayStep(s: State, step: Step)
    requires Balanced(s) && s.confirmedNonce <= s.pendingNonce && NoncesIncrease(s) && Everyday(s, step)
    ensures var t := Apply(s, step); Balanced(t) && t.confirmedNonce <= t.pendingNonce && NoncesIncrease(t)
  {
    if step.Include? && !Ignored(s, step.tx) && step.tx.nonce < s.pendingNonce {
      var k :| 0 <= k < |s.built| && s.built[k] == step.tx;
      NextInclusionKeepsBalance(s, step.block, step.tx, step.receipt.value, k);
    }
    StepBalance(s, step);
    StepKeepsIncreasing(s, step);
  }

  lemma {:induction false} StepKeepsIncreasing(s: State, step: Step)
    requires BuiltBelow(s) && NoncesIncrease(s) && s.confirmedNonce <= s.pendingNonce && Everyday(s, step)
    ensures NoncesIncrease(Apply(s, step)) && Apply(s, step).confirmedNonce <= Apply(s, step).pendingNonce
  {
  }

  /** So it holds at every moment after the first load, when the run is an everyday one from then on. */
  lemma {:induction false} EverydayAfterLoad(before: seq<Step>, nonce: nat, balance: int, steps: seq<Step>)
    requires EverydayRun(Apply(Exec(INITIAL, before), Load(nonce, balance)), steps)
    ensures Balanced(Exec(INITIAL, before + [Load(nonce, balance)] + steps))
  {
    var s := Apply(Exec(INITIAL, before), Load(nonce, balance));
    ExecAdds(INITIAL, before, [Load(nonce, balance)]);
    ExecOne(Exec(INITIAL, before), Load(nonce, balance));
    ExecAdds(INITIAL, before + [Load(nonce, balance)], steps);
    LoadBalances(Exec(INITIAL, before), nonce, balance);
    EverydayBalance(s, steps);
  }

  // ----- conservation -----

  /** The inclusion at `k` is the first to reach its nonce, counted from nonce `from`. */
  predicate FirstToReach(from: nat, steps: seq<Step>, k: nat)
    requires k < |steps|
  {
    && steps[k].Include? && steps[k].tx.nonce >= from
    && forall j :: 0 <= j < k && steps[j].Include? ==> steps[j].tx.nonce < steps[k].tx.nonce
  }

  function Received(steps: seq<Step>): nat {
    if steps == [] then 0
    else
      var k := |steps| - 1;
      Received(steps[..k]) + if steps[k].Receive? then steps[k].value else 0
  }

  /** Values and fees of the inclusions that are first to reach their nonces. */
  function Spent(from: nat, steps: seq<Step>): nat {
    if steps == [] then 0
    else
      var k := |steps| - 1;
      Spent(from, steps[..k])
      + if FirstToReach(from, steps, k) && steps[k].receipt.Some?
        then steps[k].tx.value + steps[k].receipt.value.effectiveGasPrice * steps[k].receipt.value.gasUsed else 0
  }

  /** The nonce is above all inclusions of the run, and no higher than they made it. */
  ghost predicate NonceAfter(from: nat, steps: seq<Step>, nonce: nat) {
    && from <= nonce && (forall j :: 0 <= j < |steps| && steps[j].Include? ==> steps[j].tx.nonce < nonce)
    && (nonce > from ==> exists j :: 0 <= j < |steps| && steps[j].Include? && steps[j].tx.nonce + 1 == nonce)
  }

  /** The confirmed nonce and balance of `t` follow from the steps taken since `nonce` and `balance`. */
  ghost predicate Conserves(nonce: nat, balance: int, steps: seq<Step>, t: State) {
    && t.isReady && NonceAfter(nonce, steps, t.confirmedNonce)
    && t.confirmedBalance == balance + Received(steps) - Spent(nonce, steps)
  }

  /** Between two loads the confirmed balance and nonce depend on the chain alone: what was received,
      minus values and fees of the transactions with known receipts, each nonce once however often and in
      whatever order its inclusion is reported. */
  lemma {:induction false} ConfirmedBalanceConserved(s: State, steps: seq<Step>)
    requires s.isReady && NoLoad(steps)
    ensures Conserves(s.confirmedNonce, s.confirmedBalance, steps, Exec(s, steps))
    decreases |steps|
  {
    if steps != [] {
      ConfirmedBalanceConserved(s, steps[..|steps| - 1]);
      StepConserves(s.confirmedNonce, s.confirmedBalance, steps, Exec(s, steps[..|steps| - 1]));
    }
  }

  /** After a load it starts from the loaded nonce and balance. */
  lemma {:induction false} BalanceAfterLoad(s: State, nonce: nat, balance: int, steps: seq<Step>)
    requires NoLoad(steps)
    ensures Conserves(nonce, balance, steps, Exec(Apply(s, Load(nonce, balance)), steps))
  {
    ConfirmedBalanceConserved(Apply(s, Load(nonce, balance)), steps);
  }

  lemma {:induction false} StepConserves(nonce: nat, balance: int, steps: seq<Step>, t: State)
    requires steps != [] && !steps[|steps| - 1].Load? && Conserves(nonce, balance, steps[..|steps| - 1], t)
    ensures Conserves(nonce, balance, steps, Apply(t, steps[|steps| - 1]))
  {
    var step := steps[|steps| - 1];
    if step.Include? {
      CountsIffFirst(nonce, steps, t.confirmedNonce);
      IncludeNonce(t, step);
    } else {
      OtherFlow(t, step);
    }
    NonceStep(nonce, steps, t.confirmedNonce, Apply(t, step).confirmedNonce);
  }

  lemma {:induction false} OtherFlow(t: State, step: Step)
    requires !step.Include? && !step.Load? && t.isReady
    ensures Apply(t, step).confirmedNonce == t.confirmedNonce && Apply(t, step).isReady
    ensures Apply(t, step).confirmedBalance == t.confirmedBalance + if step.Receive? then step.value else 0
  {
  }

  lemma {:induction false} IncludeNonce(t: State, step: Step)
    requires step.Include? && t.isReady
    ensures Apply(t, step).confirmedNonce == if Ignored(t, step.tx) then t.confirmedNonce else step.tx.nonce + 1
    ensures Apply(t, step).isReady
    ensures Apply(t, step).confirmedBalance == t.confirmedBalance -
            if Ignored(t, step.tx) || step.receipt == None then 0 else step.tx.value + Fee(step.receipt.value)
  {
  }

  /** An inclusion is above the confirmed nonce exactly when it is the first to reach its own. */
  lemma {:induction false} CountsIffFirst(from: nat, steps: seq<Step>, nonce: nat)
    requires steps != [] && steps[|steps| - 1].Include? && NonceAfter(from, steps[..|steps| - 1], nonce)
    ensures FirstToReach(from, steps, |steps| - 1) <==> nonce <= steps[|steps| - 1].tx.nonce
  {
    var k := |steps| - 1;
    assert forall j :: 0 <= j < k ==> steps[..k][j] == steps[j];
  }

  lemma {:induction false} NonceStep(from: nat, steps: seq<Step>, nonce: nat, nonce': nat)
    requires steps != [] && NonceAfter(from, steps[..|steps| - 1], nonce)
    requires var step := steps[|steps| - 1];
             nonce' == if step.Include? && nonce <= step.tx.nonce then step.tx.nonce + 1 else nonce
    ensures NonceAfter(from, steps, nonce')
  {
    var k := |steps| - 1;
    assert forall j :: 0 <= j < k ==> steps[..k][j] == steps[j];
  }

  // ----- runs that make the balances drift -----

  lemma {:induction false} ExecTwo(s: State, a: Step, b: Step)
    ensures Exec(s, [a, b]) == Apply(Apply(s, a), b)
  {
    assert [a, b] == [a] + [b];
    ExecAdds(s, [a], [b]);
    ExecOne(s, a);
    ExecOne(Apply(s, a), b);
  }

  /** One transaction of value 5 built from a balance of 100. */
  lemma {:induction false} OneBuilt() returns (s: State)
    ensures s == Exec(INITIAL, [Load(0, 100), Begin, Finish(Some(Tx(0, 5, 1)))])
    ensures Balanced(s) && s.isReady && s.confirmedNonce == 0 && s.pendingNonce == 1 && s.built == [Tx(0, 5, 1)]
    ensures s.building == None && ValueBetween(s.built, 0, 1) == ValueBetween(s.built, 0, 2) == 5
  {
    var tx := Tx(0, 5, 1);
    ExecThree(INITIAL, Load(0, 100), Begin, Finish(Some(tx)));
    s := State(true, 1, 95, 0, 100, 0, map[], [], None, [tx]);
    ValueAppends([], tx, 0, 1);
    ValueAppends([], tx, 0, 2);
    assert [] + [tx] == [tx];
  }

  lemma {:induction false} ExecThree(s: State, a: Step, b: Step, c: Step)
    ensures Exec(s, [a, b, c]) == Apply(Apply(Apply(s, a), b), c)
  {
    assert [a, b, c] == [a] + [b, c];
    ExecAdds(s, [a], [b, c]);
    ExecOne(s, a);
    ExecTwo(Apply(s, a), b, c);
  }

  /** Without its receipt the inclusion of a built transaction makes the balances drift. */
  lemma {:induction false} MissingReceiptDrifts()
    ensures var tx := Tx(0, 5, 1);
            !Balanced(Exec(INITIAL, [Load(0, 100), Begin, Finish(Some(tx))] + [Include(1, tx, None)]))
  {
    var tx := Tx(0, 5, 1);
    var s := OneBuilt();
    ExecAdds(INITIAL, [Load(0, 100), Begin, Finish(Some(tx))], [Include(1, tx, None)]);
    ExecOne(s, Include(1, tx, None));
    StepBalance(s, Include(1, tx, None));
  }

  /** The same transaction and another one. */
  function TwoBuilds(tx: Tx): seq<Step> {
    [Load(0, 100), Begin, Finish(Some(Tx(0, 5, 1)))] + [Begin, Finish(Some(tx))]
  }

  lemma {:induction false} TwoBuilt(tx: Tx) returns (t: State)
    requires tx.nonce <= 1
    ensures t == Exec(INITIAL, TwoBuilds(tx)) && Balanced(t)
    ensures t.isReady && t.confirmedNonce == 0 && t.pendingNonce == tx.nonce + 1
    ensures ValueBetween(t.built, 0, tx.nonce + 1) == 5 + tx.value
  {
    var s := OneBuilt();
    ExecAdds(INITIAL, [Load(0, 100), Begin, Finish(Some(Tx(0, 5, 1)))], [Begin, Finish(Some(tx))]);
    ExecTwo(s, Begin, Finish(Some(tx)));
    t := SecondBuild(s, tx);
  }

  lemma {:induction false} SecondBuild(s: State, tx: Tx) returns (t: State)
    requires Balanced(s) && s.isReady && s.building == None && s.confirmedNonce == 0 && s.pendingNonce == 1
    requires tx.nonce <= 1 && ValueBetween(s.built, 0, tx.nonce + 1) == 5
    ensures t == Apply(Apply(s, Begin), Finish(Some(tx))) && Balanced(t)
    ensures t.isReady && t.confirmedNonce == 0 && t.pendingNonce == tx.nonce + 1
    ensures ValueBetween(t.built, 0, tx.nonce + 1) == 5 + tx.value
  {
    StepBalance(s, Begin);
    StepBalance(Apply(s, Begin), Finish(Some(tx)));
    t := Apply(Apply(s, Begin), Finish(Some(tx)));
    assert t.built[..|t.built| - 1] == s.built;
  }

  /** So does a missed inclusion, when the next one confirms both nonces and spends one value only, and
      so does a nonce built twice, when one of the two values is never spent. */
  lemma {:induction false} MissedOrReusedDrifts(tx: Tx, r: Receipt)
    requires tx.nonce <= 1
    ensures Balanced(Exec(INITIAL, TwoBuilds(tx)))
    ensures !Balanced(Exec(INITIAL, TwoBuilds(tx) + [Include(1, tx, Some(r))]))
  {
    var t := TwoBuilt(tx);
    ExecAdds(INITIAL, TwoBuilds(tx), [Include(1, tx, Some(r))]);
    ExecOne(t, Include(1, tx, Some(r)));
    StepBalance(t, Include(1, tx, Some(r)));
  }
}
