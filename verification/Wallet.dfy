/**
The wallet object. Each method is one mutex section of assertoor's wallet, or one half of the section
around a build function, and takes exactly the matching step of the wallet state machine.
*/
module Wallets {
  import opened BlockTree
  import opened WalletModel

  class Wallet {
    var isReady: bool
    var pendingNonce: nat
    var pendingBalance: int
    var confirmedNonce: nat
    var confirmedBalance: int
    var lastConfirmation: nat
    var txNonceChans: map<nat, nat>    // nonce to position in statuses
    var statuses: seq<NonceStatus>     // every status object handed out
    ghost var building: Option<nat>    // the nonce supplied to the open build
    ghost var built: seq<Tx>

    ghost function View(): State
      reads this
    {
      State(isReady, pendingNonce, pendingBalance, confirmedNonce, confirmedBalance, lastConfirmation,
            txNonceChans, statuses, building, built)
    }

    ghost predicate Valid()
      reads this
    {
      ClosedOnce(View())
    }

    constructor ()
      ensures View() == INITIAL && Valid()
    {
      isReady, pendingNonce, pendingBalance, confirmedNonce, confirmedBalance := false, 0, 0, 0, 0;
      lastConfirmation, txNonceChans, statuses, building, built := 0, map[], [], None, [];
    }

    method LoadState(nonce: nat, balance: int)
      requires Valid()
      modifies this
      ensures Valid() && View() == Apply(old(View()), Load(nonce, balance))
      ensures isReady && pendingNonce == confirmedNonce == nonce && pendingBalance == confirmedBalance == balance
      ensures txNonceChans == old(txNonceChans) && statuses == old(statuses) && building == old(building)
      ensures lastConfirmation == old(lastConfirmation) && built == []
    {
      StepKeepsWaiters(View(), Load(nonce, balance));
      pendingNonce, confirmedNonce := nonce, nonce;
      pendingBalance, confirmedBalance := balance, balance;
      isReady := true;
      built := [];
    }

    method UseNextNonce(increase: bool) returns (nextNonce: nat)
      requires Valid()
      modifies this
      ensures Valid() && View() == Apply(old(View()), UseNonce(increase))
      ensures nextNonce == old(pendingNonce)
      ensures View() == old(View()).(pendingNonce := if increase then nextNonce + 1 else nextNonce)
    {
      StepKeepsWaiters(View(), UseNonce(increase));
      nextNonce := pendingNonce;
      if increase {
        pendingNonce := pendingNonce + 1;
      }
    }

    /** The first half of a build: the nonce handed to the build function. The build mutex is held from
        here to the end of the build. */
    method BeginBuild() returns (nonce: nat)
      requires Valid() && isReady && building == None
      modifies this
      ensures Valid() && View() == Apply(old(View()), Begin)
      ensures nonce == old(pendingNonce) && building == Some(nonce)
    {
      StepKeepsWaiters(View(), Begin);
      nonce := pendingNonce;
      building := Some(nonce);
    }

    /** The second half: `result` is what the build function made, or nothing on an error. */
    method FinishBuild(result: Option<Tx>)
      requires Valid() && building.Some?
      modifies this
      ensures Valid() && View() == Apply(old(View()), Finish(result))
    {
      StepKeepsWaiters(View(), Finish(result));
      building := None;
      if result.Some? {
        var tx := result.value;
        if pendingNonce < tx.nonce + 1 {
          pendingNonce := tx.nonce + 1;
        }
        pendingBalance := pendingBalance - tx.value;
        built := built + [tx];
      }
    }

    /** A set-code transaction whose `count` authorizations are signed by the wallet that sends it: the
        build function draws their nonces from the wallet. The first one gets the nonce of the
        transaction, and the pending nonce moves on as if there were one taker less. */
    method BuildSetCode(count: nat, value: nat, hash: nat) returns (tx: Tx, nonces: seq<nat>)
      requires Valid() && isReady && building == None
      modifies this
      ensures Valid() && building == None && built == old(built) + [tx]
      ensures tx == Tx(old(pendingNonce), value, hash)
      ensures |nonces| == count && forall i :: 0 <= i < count ==> nonces[i] == tx.nonce + i
      ensures pendingNonce == tx.nonce + if count == 0 then 1 else count
    {
      var nonce := BeginBuild();
      nonces := [];
      for i := 0 to count
        invariant Valid() && building == Some(nonce) && built == old(built)
        invariant pendingNonce == nonce + i
        invariant |nonces| == i && forall k :: 0 <= k < i ==> nonces[k] == nonce + k
      {
        var next := UseNextNonce(true);
        nonces := nonces + [next];
      }
      tx := Tx(nonce, value, hash);
      FinishBuild(Some(tx));
    }

    /** Nothing for a nonce that is already confirmed; one shared open status per nonce otherwise. */
    method GetTxNonceChan(targetNonce: nat) returns (status: Option<nat>)
      requires Valid() && isReady
      modifies this
      ensures Valid() && View() == Apply(old(View()), Register(targetNonce))
      ensures status == None <==> targetNonce < confirmedNonce
      ensures status.Some? ==> status.value < |statuses| && statuses[status.value].nonce == targetNonce
                               && statuses[status.value].closes == 0 && Registered(View(), status.value)
    {
      StepKeepsWaiters(View(), Register(targetNonce));
      if confirmedNonce > targetNonce {
        return None;
      }
      if targetNonce in txNonceChans {
        return Some(txNonceChans[targetNonce]);
      }
      txNonceChans := txNonceChans[targetNonce := |statuses|];
      statuses := statuses + [NonceStatus(targetNonce, 0, None)];
      return Some(|statuses| - 1);
    }

    /** Closes a channel that must still be open: closing twice would panic. */
    method Close(n: nat)
      requires n in txNonceChans && txNonceChans[n] < |statuses| && statuses[txNonceChans[n]].closes == 0
      modifies `txNonceChans, `statuses
      ensures txNonceChans == old(txNonceChans) - {n}
      ensures var i := old(txNonceChans)[n]; statuses == old(statuses)[i := old(statuses)[i].(closes := 1)]
    {
      var i := txNonceChans[n];
      statuses := statuses[i := statuses[i].(closes := statuses[i].closes + 1)];
      txNonceChans := txNonceChans - {n};
    }

    /** The loop over the registered waiters, in any order. */
    method CloseWaiters(cut: nat, at: Option<nat>, receipt: Option<Receipt>)
      requires Valid() && (at.Some? ==> at.value < cut)
      modifies `txNonceChans, `statuses
      ensures View() == CloseBelow(old(View()), cut, at, receipt)
    {
      ghost var s := View();
      var rest := txNonceChans.Keys;
      while rest != {}
        invariant View() == s.(waiters := txNonceChans, statuses := statuses)
        invariant ClosedExcept(s, View(), rest, cut, at, receipt)
        decreases |rest|
      {
        var n :| n in rest;
        ghost var t := View();
        ghost var before := rest;
        rest := rest - {n};
        var i := txNonceChans[n];
        if at == Some(n) {
          statuses := statuses[i := statuses[i].(receipt := receipt)];
        }
        if n < cut {
          Close(n);
        }
        CloseOne(s, t, View(), before, n, cut, at, receipt);
      }
      AllClosed(s, View(), cut, at, receipt);
    }

    method DeductBalances(tx: Tx, receipt: Option<Receipt>)
      modifies `confirmedBalance, `pendingBalance
      ensures View() == IncludeBalances(old(View()), tx, receipt)
    {
      if receipt.Some? {
        confirmedBalance := confirmedBalance - tx.value;
        var txFee := receipt.value.effectiveGasPrice * receipt.value.gasUsed;
        confirmedBalance := confirmedBalance - txFee;
        pendingBalance := pendingBalance - txFee;
      }
    }

    method AdvanceConfirmed(nonce: nat)
      modifies `confirmedNonce, `pendingNonce, `pendingBalance
      ensures View() == ConfirmNonce(old(View()), nonce)
    {
      confirmedNonce := nonce + 1;
      if confirmedNonce > pendingNonce {
        pendingNonce := confirmedNonce;
        pendingBalance := confirmedBalance;
      }
    }

    method ProcessTransactionInclusion(block: nat, tx: Tx, receipt: Option<Receipt>)
      requires Valid()
      modifies this
      ensures Valid() && View() == Apply(old(View()), Include(block, tx, receipt))
      ensures !old(isReady) || old(confirmedNonce) > tx.nonce ==> View() == old(View())
      ensures old(isReady) && old(confirmedNonce) <= tx.nonce ==>
                var fee := if receipt == None then 0 else receipt.value.effectiveGasPrice * receipt.value.gasUsed;
                && lastConfirmation == block && confirmedNonce == tx.nonce + 1
                && confirmedBalance == old(confirmedBalance) - (if receipt == None then 0 else tx.value + fee)
                && pendingNonce == (if old(pendingNonce) > tx.nonce then old(pendingNonce) else tx.nonce + 1)
                && pendingBalance ==
                   if old(pendingNonce) > tx.nonce then old(pendingBalance) - fee else confirmedBalance
    {
      if !isReady || confirmedNonce > tx.nonce {
        return;
      }
      ghost var s := View();
      lastConfirmation := block;
      assert View() == s.(lastConfirmation := block);
      DeductBalances(tx, receipt);
      assert View() == IncludeBalances(s.(lastConfirmation := block), tx, receipt);
      SameWaiters(s, View());
      SettleNonce(tx.nonce, receipt);
    }

    method SettleNonce(nonce: nat, receipt: Option<Receipt>)
      requires Valid()
      modifies this
      ensures Valid() && View() == Settle(old(View()), nonce, receipt)
    {
      CloseAndConfirm(View(), nonce, receipt);
      CloseWaiters(nonce + 1, Some(nonce), receipt);
      AdvanceConfirmed(nonce);
    }

    method ProcessStaleConfirmations(number: nat, lastNonce: Option<nat>)
      requires Valid()
      modifies this
      ensures Valid() && View() == Apply(old(View()), Recover(number, lastNonce))
    {
      StepKeepsWaiters(View(), Recover(number, lastNonce));
      if !isReady {
        return;
      }
      if |txNonceChans| > 0 && number > lastConfirmation + 10 {
        ghost var s := View();
        lastConfirmation := number;
        if lastNonce == None || confirmedNonce >= lastNonce.value {
          return;
        }
        SameWaiters(s, View());
        CloseWaiters(lastNonce.value, None, None);
      }
    }

    method ProcessTransactionReceival(value: nat)
      requires Valid()
      modifies this
      ensures Valid() && View() == Apply(old(View()), Receive(value))
      ensures var v := if isReady then value else 0;
              View() == old(View()).(pendingBalance := old(pendingBalance) + v,
                                     confirmedBalance := old(confirmedBalance) + v)
    {
      StepKeepsWaiters(View(), Receive(value));
      if isReady {
        pendingBalance := pendingBalance + value;
        confirmedBalance := confirmedBalance + value;
      }
    }
  }

  /** Loop state: the waiters not in `rest` were handled, the others are as before. */
  ghost predicate ClosedExcept(s: State, t: State, rest: set<nat>, cut: nat, at: Option<nat>,
                               receipt: Option<Receipt>) {
    && rest <= s.waiters.Keys && |t.statuses| == |s.statuses|
    && (forall n :: n in t.waiters <==> n in s.waiters && (n in rest || n >= cut))
    && (forall n :: n in t.waiters ==> t.waiters[n] == s.waiters[n])
    && (forall i :: 0 <= i < |s.statuses| ==>
          t.statuses[i] ==
          if Registered(s, i) && s.statuses[i].nonce !in rest then CloseStatus(s, i, cut, at, receipt)
          else s.statuses[i])
  }

  lemma {:induction false} CloseOne(s: State, t: State, u: State, rest: set<nat>, n: nat, cut: nat, at: Option<nat>,
                                    receipt: Option<Receipt>)
    requires ClosedOnce(s) && ClosedExcept(s, t, rest, cut, at, receipt) && n in rest
    requires at.Some? ==> at.value < cut
    requires var i := s.waiters[n];
             && u.waiters == (if n < cut then t.waiters - {n} else t.waiters)
             && u.statuses == t.statuses[i := CloseStatus(s, i, cut, at, receipt)]
    ensures ClosedExcept(s, u, rest - {n}, cut, at, receipt)
  {
  }

  lemma {:induction false} AllClosed(s: State, t: State, cut: nat, at: Option<nat>, receipt: Option<Receipt>)
    requires ClosedExcept(s, t, {}, cut, at, receipt) && t == s.(waiters := t.waiters, statuses := t.statuses)
    ensures t == CloseBelow(s, cut, at, receipt)
  {
  }
}
