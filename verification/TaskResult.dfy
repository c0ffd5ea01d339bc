/**
The result of a task and its update channel: a watcher asks for a channel that closes when the
result changes from the value it knows. Every step is exclusive; assertoor creates the channel
under a read lock, so exclusive access of that step is an assumption of this model.
*/
module TaskResults {
  import opened BlockTree

  datatype Result = Pending | Success | Failure

  /** A handed-out channel: the result it was requested for and how often it was closed. */
  datatype Channel = Channel(requested: Result, closes: nat)

  /** Control states of the loop that cancels a task once its result is known. */
  datatype Watcher = AtTop | Waiting(channel: nat) | Checking | Cancelled | Ended

  datatype State = State(result: Result, updated: bool, notify: Option<nat>, channels: seq<Channel>, watcher: Watcher)

  const INITIAL := State(Pending, false, None, [], AtTop)

  datatype Step =
    | SetResult(result: Result, setUpdated: bool)
    | Request(known: Result)     // any other caller asking for a channel
    | Watch                      // the watcher moves, if it is not blocked
    | EndContext                 // the task context ends while the watcher waits

  function WithResult(s: State, result: Result, setUpdated: bool): State {
    var t := if setUpdated then s.(updated := true) else s;
    if t.result == result then t
    else if t.notify.Some? && t.notify.value < |t.channels| then
      var k := t.notify.value;
      t.(result := result, notify := None,
         channels := t.channels[k := t.channels[k].(closes := t.channels[k].closes + 1)])
    else t.(result := result)
  }

  /** No channel when the result already differs, otherwise the one current channel. */
  function RequestChannel(s: State, known: Result): (State, Option<nat>) {
    if s.result != known then (s, None)
    else if s.notify.Some? then (s, s.notify)
    else (s.(notify := Some(|s.channels|), channels := s.channels + [Channel(known, 0)]), Some(|s.channels|))
  }

  predicate Blocked(s: State) {
    match s.watcher
    case Waiting(k) => k >= |s.channels| || s.channels[k].closes == 0
    case Cancelled => true
    case Ended => true
    case _ => false
  }

  function MoveWatcher(s: State): State {
    if Blocked(s) then s
    else match s.watcher
      case AtTop =>
        var (t, channel) := RequestChannel(s, Pending);
        t.(watcher := if channel.Some? then Waiting(channel.value) else Checking)
      case Waiting(_) => s.(watcher := Checking)
      case Checking => s.(watcher := if s.result != Pending then Cancelled else AtTop)
      case _ => s
  }

  function Apply(s: State, step: Step): State {
    match step
    case SetResult(result, setUpdated) => WithResult(s, result, setUpdated)
    case Request(known) => RequestChannel(s, known).0
    case Watch => MoveWatcher(s)
    case EndContext => if s.watcher.Waiting? then s.(watcher := Ended) else s
  }

  function Exec(s: State, steps: seq<Step>): State {
    if steps == [] then s else Apply(Exec(s, steps[..|steps| - 1]), steps[|steps| - 1])
  }

  /** An open channel is the current one and the result is still the one it was requested for;
      every other channel was closed exactly once. */
  ghost predicate Valid(s: State) {
    && (s.notify.Some? ==> s.notify.value < |s.channels| && s.channels[s.notify.value].requested == s.result)
    && (forall k :: 0 <= k < |s.channels| ==> s.channels[k].closes == if s.notify == Some(k) then 0 else 1)
    && (s.watcher.Waiting? ==> s.watcher.channel < |s.channels| && s.channels[s.watcher.channel].requested == Pending)
  }

  lemma {:induction false} StepKeepsValid(s: State, step: Step)
    requires Valid(s)
    ensures Valid(Apply(s, step))
  {
  }

  lemma {:induction false} RunKeepsValid(s: State, steps: seq<Step>)
    requires Valid(s)
    ensures Valid(Exec(s, steps))
    decreases |steps|
  {
    if steps != [] {
      RunKeepsValid(s, steps[..|steps| - 1]);
      StepKeepsValid(Exec(s, steps[..|steps| - 1]), steps[|steps| - 1]);
    }
  }

  /** In every reachable state: a handed-out channel that is open is the current one and nothing has
      changed since; no channel is ever closed twice. */
  lemma {:induction false} OpenMeansUnchanged(steps: seq<Step>, k: nat)
    requires k < |Exec(INITIAL, steps).channels|
    ensures var s := Exec(INITIAL, steps);
            && s.channels[k].closes <= 1
            && (s.channels[k].closes == 0 ==> s.notify == Some(k) && s.result == s.channels[k].requested)
  {
    RunKeepsValid(INITIAL, steps);
  }

  /** The result is known from here to the end of the run. */
  ghost predicate Persists(s: State, steps: seq<Step>) {
    s.result != Pending && forall n :: 0 <= n <= |steps| ==> Exec(s, steps[..n]).result != Pending
  }

  function Watches(steps: seq<Step>): nat {
    if steps == [] then 0 else Watches(steps[..|steps| - 1]) + if steps[|steps| - 1].Watch? then 1 else 0
  }

  function Rank(w: Watcher): nat {
    match w
    case Checking => 1
    case Cancelled => 0
    case Ended => 0
    case _ => 2
  }

  /** While a result is known the watcher is never blocked, and each move brings it closer. */
  lemma {:induction false} WatcherMoves(s: State, step: Step)
    requires Valid(s) && s.result != Pending && !step.EndContext?
    requires !s.watcher.Cancelled? && !s.watcher.Ended?
    ensures !Blocked(s)
    ensures !step.Watch? ==> Apply(s, step).watcher == s.watcher
    ensures step.Watch? ==> !Apply(s, step).watcher.Ended? && Rank(Apply(s, step).watcher) == Rank(s.watcher) - 1
  {
  }

  /** A result that persists is not missed: whatever else happens, two moves of the watcher cancel
      the task. */
  lemma {:induction false} PersistingResultCancels(s: State, steps: seq<Step>)
    requires Valid(s) && !s.watcher.Ended? && Persists(s, steps)
    requires forall i :: 0 <= i < |steps| ==> !steps[i].EndContext?
    ensures var t := Exec(s, steps);
            && !t.watcher.Ended?
            && Rank(t.watcher) + Watches(steps)
               <= (if Rank(s.watcher) > Watches(steps) then Rank(s.watcher) else Watches(steps))
            && (Watches(steps) >= 2 ==> t.watcher.Cancelled?)
    decreases |steps|
  {
    if steps != [] {
      var front := steps[..|steps| - 1];
      forall n | 0 <= n <= |front| ensures Exec(s, front[..n]).result != Pending {
        assert front[..n] == steps[..n];
      }
      PersistingResultCancels(s, front);
      RunKeepsValid(s, front);
      assert steps[..|front|] == front;
      var m := Exec(s, front);
      if !m.watcher.Cancelled? {
        WatcherMoves(m, steps[|steps| - 1]);
      }
    }
  }

  /** The watcher cancels only while a result is known. */
  lemma {:induction false} CancelsOnlyOnResult(s: State, step: Step)
    requires !s.watcher.Cancelled? && Apply(s, step).watcher.Cancelled?
    ensures step.Watch? && s.result != Pending
  {
  }

  /** In every run: a cancelled task had a known result at the moment the watcher cancelled it. */
  lemma {:induction false} CancelledHadResult(steps: seq<Step>) returns (k: nat)
    requires Exec(INITIAL, steps).watcher.Cancelled?
    ensures k < |steps| && steps[k].Watch? && Exec(INITIAL, steps[..k]).result != Pending
    ensures !Exec(INITIAL, steps[..k]).watcher.Cancelled? && Exec(INITIAL, steps[..k + 1]).watcher.Cancelled?
    decreases |steps|
  {
    k := |steps| - 1;
    var front := steps[..k];
    if Exec(INITIAL, front).watcher.Cancelled? {
      k := CancelledHadResult(front);
      assert front[..k] == steps[..k] && front[..k + 1] == steps[..k + 1];
    } else {
      CancelsOnlyOnResult(Exec(INITIAL, front), steps[k]);
      assert steps[..k + 1] == steps;
    }
  }

  /** In every run: the watcher ends without cancelling only when its context has ended. */
  lemma {:induction false} EndedByContext(steps: seq<Step>) returns (k: nat)
    requires Exec(INITIAL, steps).watcher.Ended?
    ensures k < |steps| && steps[k].EndContext? && Exec(INITIAL, steps[..k]).watcher.Waiting?
    decreases |steps|
  {
    k := |steps| - 1;
    var front := steps[..k];
    if Exec(INITIAL, front).watcher.Ended? {
      k := EndedByContext(front);
      assert front[..k] == steps[..k];
    }
  }

  /** Moves the watcher can make before it sleeps on an open channel. */
  function MovesLeft(s: State): nat {
    match s.watcher
    case AtTop => 1
    case Checking => 2
    case Waiting(_) => if Blocked(s) then 0 else 3
    case _ => 0
  }

  /** Moves the watcher did make. */
  function MovesMade(s: State, steps: seq<Step>): nat {
    if steps == [] then 0
    else
      var k := |steps| - 1;
      MovesMade(s, steps[..k]) + if steps[k].Watch? && !Blocked(Exec(s, steps[..k])) then 1 else 0
  }

  /** The watcher does not poll: while no result is set it makes at most three moves and then sleeps until
      one is, whatever other callers ask for. */
  lemma {:induction false} WatcherSleeps(s: State, steps: seq<Step>)
    requires Valid(s) && s.result == Pending
    requires forall k :: 0 <= k < |steps| && steps[k].SetResult? ==> steps[k].result == Pending
    ensures var t := Exec(s, steps);
            Valid(t) && t.result == Pending && MovesMade(s, steps) + MovesLeft(t) <= MovesLeft(s) <= 3
    decreases |steps|
  {
    if steps != [] {
      var k := |steps| - 1;
      WatcherSleeps(s, steps[..k]);
      StepKeepsValid(Exec(s, steps[..k]), steps[k]);
      SleepStep(Exec(s, steps[..k]), steps[k]);
    }
  }

  lemma {:induction false} SleepStep(s: State, step: Step)
    requires Valid(s) && s.result == Pending && (step.SetResult? ==> step.result == Pending)
    ensures var t := Apply(s, step);
            t.result == Pending && MovesLeft(t) + (if step.Watch? && !Blocked(s) then 1 else 0) <= MovesLeft(s)
  {
  }

  /** The result set last. */
  function LastResult(steps: seq<Step>): Result {
    if steps == [] then Pending
    else if steps[|steps| - 1].SetResult? then steps[|steps| - 1].result
    else LastResult(steps[..|steps| - 1])
  }

  /** In every run: the result is the one set last, or none, and it counts as updated exactly when some
      call said so. */
  lemma {:induction false} ResultIsLastSet(steps: seq<Step>)
    ensures Exec(INITIAL, steps).result == LastResult(steps)
    ensures Exec(INITIAL, steps).updated <==>
            exists k :: 0 <= k < |steps| && steps[k].SetResult? && steps[k].setUpdated
    decreases |steps|
  {
    if steps != [] {
      var k := |steps| - 1;
      ResultIsLastSet(steps[..k]);
      assert steps == steps[..k] + [steps[k]];
      StepSets(Exec(INITIAL, steps[..k]), steps[k]);
    }
  }

  lemma {:induction false} StepSets(s: State, step: Step)
    ensures Apply(s, step).result == if step.SetResult? then step.result else s.result
    ensures Apply(s, step).updated == (s.updated || (step.SetResult? && step.setUpdated))
  {
  }

  class TaskState {
    var taskResult: Result
    var updatedResult: bool
    var resultNotifyChan: Option<nat>
    var channels: seq<Channel>
    ghost var watcher: Watcher

    ghost function View(): State
      reads this
    {
      State(taskResult, updatedResult, resultNotifyChan, channels, watcher)
    }

    constructor ()
      ensures View() == INITIAL
    {
      taskResult, updatedResult, resultNotifyChan, channels, watcher := Pending, false, None, [], AtTop;
    }

    method SetTaskResult(result: Result, setUpdated: bool)
      requires Valid(View())
      modifies this
      ensures Valid(View()) && View() == WithResult(old(View()), result, setUpdated)
      ensures taskResult == result && updatedResult == (old(updatedResult) || setUpdated)
      ensures |channels| == |old(channels)| && watcher == old(watcher)
      ensures if result == old(taskResult) then resultNotifyChan == old(resultNotifyChan) else resultNotifyChan == None
      ensures forall k :: 0 <= k < |channels| ==>
                channels[k] == if old(taskResult) != result && old(resultNotifyChan) == Some(k)
                               then Channel(old(channels)[k].requested, 1) else old(channels)[k]
    {
      StepKeepsValid(View(), SetResult(result, setUpdated));
      if setUpdated {
        updatedResult := true;
      }
      if taskResult == result {
        return;
      }
      taskResult := result;
      if resultNotifyChan.Some? {
        var k := resultNotifyChan.value;
        assert channels[k].closes == 0;  // closing a closed channel would panic
        channels := channels[k := channels[k].(closes := channels[k].closes + 1)];
        resultNotifyChan := None;
      }
    }

    method GetTaskResultUpdateChan(oldResult: Result) returns (channel: Option<nat>)
      requires Valid(View())
      modifies this
      ensures Valid(View()) && (View(), channel) == RequestChannel(old(View()), oldResult)
      ensures channel == None <==> taskResult != oldResult
      ensures channel.Some? ==> channel.value < |channels| && channels[channel.value] == Channel(oldResult, 0)
    {
      StepKeepsValid(View(), Request(oldResult));
      if taskResult != oldResult {
        return None;
      }
      if resultNotifyChan == None {
        resultNotifyChan := Some(|channels|);
        channels := channels + [Channel(oldResult, 0)];
      }
      return resultNotifyChan;
    }
  }
}
