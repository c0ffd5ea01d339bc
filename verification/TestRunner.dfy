/**
The test queue and its executor as a state machine over mutex sections and channel operations:
any number of schedulers and removers, one executor loop with a semaphore, a notification channel
of capacity one, and finishing runs.
*/
module TestRunning {
  import opened BlockTree

  datatype Run = Run(id: nat, test: nat)

  /** Control states of the executor loop. */
  datatype Executor = Top | Holding(run: Run) | Acquired(run: Run) | Waiting | Stopped(dropped: Option<Run>)

  /** The scheduler that holds the scheduler mutex between creating a run and registering it. */
  datatype Creation = Creation(run: Run, skipQueue: bool)

  datatype State = State(
    runIDCounter: nat,
    creating: Option<Creation>,
    queue: seq<Run>,
    runMap: set<Run>,        // registered runs
    notifiers: nat,          // schedulers that queued a run and did not notify yet
    token: bool,             // the notification channel holds its one entry
    executor: Executor,
    limit: nat,
    cancelled: bool,
    started: seq<Run>,       // history of started runs
    running: set<Run>, finished: set<Run>,
    queued: set<Run>,        // history of queued runs
    removed: set<Run>, offQueue: set<Run>)

  function Initial(lastRunID: nat, concurrencyLimit: nat): State {
    State(lastRunID, None, [], {}, 0, false, Top, if concurrencyLimit < 1 then 1 else concurrencyLimit, false,
          [], {}, {}, {}, {}, {})
  }

  datatype Step =
    | Create(test: nat, allowDuplicate: bool, skipQueue: bool, created: bool)
    | Enlist                      // the creating scheduler registers its run
    | Notify                      // a scheduler sends its notification
    | Remove(id: nat)
    | Take                        // the executor looks at the queue
    | Wake | Timeout              // the executor leaves its sleep
    | Acquire                     // the executor gets a semaphore slot
    | Start                       // the executor checks the context and starts the run
    | Finish(run: Run)
    | Cancel | StopWaiting

  predicate HasTest(queue: seq<Run>, test: nat) {
    exists i :: 0 <= i < |queue| && queue[i].test == test
  }

  predicate HasRun(queue: seq<Run>, id: nat) {
    exists i :: 0 <= i < |queue| && queue[i].id == id
  }

  /** The queue without the first run of this id. */
  function RemoveRun(queue: seq<Run>, id: nat): seq<Run> {
    if queue == [] then [] else if queue[0].id == id then queue[1..] else [queue[0]] + RemoveRun(queue[1..], id)
  }

  function FirstRun(queue: seq<Run>, id: nat): (r: Run)
    requires HasRun(queue, id)
    ensures r in queue && r.id == id
  {
    if queue[0].id == id then queue[0] else FirstRun(queue[1..], id)
  }

  /** Slots in use: the running tests and a slot the executor has just acquired. */
  function Slots(s: State): nat { |s.running| + if s.executor.Acquired? then 1 else 0 }

  function Apply(s: State, step: Step): State {
    match step
    case Create(test, allowDuplicate, skipQueue, created) =>
      if s.creating.Some? || (!allowDuplicate && HasTest(s.queue, test)) then s
      else
        var t := s.(runIDCounter := s.runIDCounter + 1);
        if !created then t else t.(creating := Some(Creation(Run(t.runIDCounter, test), skipQueue)))
    case Enlist =>
      if s.creating == None then s
      else
        var r := s.creating.value.run;
        var t := s.(creating := None, runMap := s.runMap + {r});
        if s.creating.value.skipQueue then t.(offQueue := t.offQueue + {r})
        else t.(queue := t.queue + [r], queued := t.queued + {r}, notifiers := t.notifiers + 1)
    case Notify =>
      if s.notifiers == 0 then s else s.(notifiers := s.notifiers - 1, token := true)
    case Remove(id) =>
      if !HasRun(s.queue, id) then s
      else
        var r := FirstRun(s.queue, id);
        s.(queue := RemoveRun(s.queue, id), runMap := s.runMap - {r}, removed := s.removed + {r})
    case Take =>
      if !s.executor.Top? then s
      else if s.queue == [] then s.(executor := Waiting)
      else s.(executor := Holding(s.queue[0]), queue := s.queue[1..])
    case Wake =>
      if s.executor.Waiting? && s.token then s.(executor := Top, token := false) else s
    case Timeout =>
      if s.executor.Waiting? then s.(executor := Top) else s
    case Acquire =>
      if s.executor.Holding? && Slots(s) < s.limit then s.(executor := Acquired(s.executor.run)) else s
    case Start =>
      if !s.executor.Acquired? then s
      else if s.cancelled then s.(executor := Stopped(Some(s.executor.run)))
      else s.(executor := Top, started := s.started + [s.executor.run], running := s.running + {s.executor.run})
    case Finish(run) =>
      if run in s.running then s.(running := s.running - {run}, finished := s.finished + {run}) else s
    case Cancel => s.(cancelled := true)
    case StopWaiting =>
      if s.executor.Waiting? && s.cancelled then s.(executor := Stopped(None)) else s
  }

  function Exec(s: State, steps: seq<Step>): State {
    if steps == [] then s else Apply(Exec(s, steps[..|steps| - 1]), steps[|steps| - 1])
  }

  // ----- the invariant -----

  /** The run between queue and start: held by the executor, or dropped when it was cancelled. */
  function InHand(e: Executor): seq<Run> {
    match e
    case Holding(r) => [r]
    case Acquired(r) => [r]
    case Stopped(d) => if d.Some? then [d.value] else []
    case _ => []
  }

  /** Started runs, the run in hand and the queue, in this order. */
  function Line(s: State): seq<Run> {
    s.started + InHand(s.executor) + s.queue
  }

  ghost predicate Increasing(runs: seq<Run>) {
    forall i, j :: 0 <= i < j < |runs| ==> runs[i].id < runs[j].id
  }

  ghost predicate IdsUpTo(runs: set<Run>, n: nat) {
    forall r :: r in runs ==> r.id <= n
  }

  ghost function Elements(runs: seq<Run>): set<Run> { set r | r in runs }

  /** Run ids ascend along the line, so starts are first come, first served. */
  ghost predicate Ordered(s: State) {
    && Increasing(Line(s))
    && IdsUpTo(s.queued + s.offQueue, s.runIDCounter)
    && (s.creating.Some? ==>
          && s.creating.value.run.id == s.runIDCounter
          && forall r :: r in s.queued + s.offQueue ==> r.id < s.runIDCounter)
  }

  /** Every queued run is in exactly one place. */
  ghost predicate Placed(s: State) {
    && s.queued == Elements(Line(s)) + s.removed && Elements(Line(s)) !! s.removed
    && Elements(s.started) == s.running + s.finished && s.running !! s.finished
    && s.runMap == (s.queued - s.removed) + s.offQueue && s.queued !! s.offQueue
  }

  /** The limit holds, and a sleeping executor with work in the queue will be woken. */
  ghost predicate Live(s: State) {
    && 0 < s.limit && Slots(s) <= s.limit
    && (s.executor.Waiting? && s.queue != [] ==> s.token || s.notifiers > 0)
  }

  ghost predicate Valid(s: State) {
    Ordered(s) && Placed(s) && Live(s)
  }

  // ----- removing from the queue -----

  lemma {:induction false} ElementsConcat(a: seq<Run>, b: seq<Run>)
    ensures Elements(a + b) == Elements(a) + Elements(b)
  {
  }

  lemma {:induction false} HeadAndTail(queue: seq<Run>)
    requires queue != [] && Increasing(queue)
    ensures Elements(queue) == {queue[0]} + Elements(queue[1..]) && queue[0] !in Elements(queue[1..])
            && Increasing(queue[1..])
    ensures forall r :: r in Elements(queue[1..]) ==> r.id > queue[0].id
  {
  }

  lemma {:induction false} RemoveRunElements(queue: seq<Run>, id: nat)
    requires HasRun(queue, id) && Increasing(queue)
    ensures var r := FirstRun(queue, id); var q := RemoveRun(queue, id);
            r in queue && r.id == id && Elements(q) == Elements(queue) - {r} && Increasing(q)
    decreases |queue|
  {
    HeadAndTail(queue);
    if queue[0].id != id {
      assert HasRun(queue[1..], id) by {
        var i :| 0 <= i < |queue| && queue[i].id == id;
        assert queue[1..][i - 1].id == id;
      }
      RemoveRunElements(queue[1..], id);
      var q := RemoveRun(queue[1..], id);
      ElementsConcat([queue[0]], q);
      assert Elements([queue[0]]) == {queue[0]};
      forall i | 0 <= i < |q| ensures queue[0].id < q[i].id {
        assert q[i] in Elements(q);
      }
    }
  }

  /** Any list of later runs, taken from the tail of an increasing line, keeps the line increasing. */
  lemma {:induction false} TailIncreasing(front: seq<Run>, tail: seq<Run>, tail': seq<Run>)
    requires Increasing(front + tail) && Increasing(tail') && Elements(tail') <= Elements(tail)
    ensures Increasing(front + tail')
  {
    var line, line' := front + tail, front + tail';
    forall i, j | 0 <= i < j < |line'| ensures line'[i].id < line'[j].id {
      if j < |front| {
        assert line[i] == line'[i] && line[j] == line'[j];
      } else if i < |front| {
        assert line'[j] in Elements(tail');
        var k :| 0 <= k < |tail| && tail[k] == line'[j];
        assert line[i] == line'[i] && line[|front| + k] == tail[k];
      } else {
        assert line'[i] == tail'[i - |front|] && line'[j] == tail'[j - |front|];
      }
    }
  }

  lemma {:induction false} RemoveKeeps(s: State, id: nat)
    requires Valid(s)
    ensures Valid(Apply(s, Remove(id)))
  {
    if HasRun(s.queue, id) {
      var front := s.started + InHand(s.executor);
      var r, q := FirstRun(s.queue, id), RemoveRun(s.queue, id);
      QueueIncreasing(s);
      RemoveRunElements(s.queue, id);
      TailIncreasing(front, s.queue, q);
      ElementsConcat(front, s.queue);
      ElementsConcat(front, q);
      NotInFront(front, s.queue, r);
      assert r in Elements(s.queue);
      assert Elements(front + q) == Elements(front + s.queue) - {r};
    }
  }

  lemma {:induction false} QueueIncreasing(s: State)
    requires Increasing(Line(s))
    ensures Increasing(s.queue)
  {
    var n := |s.started + InHand(s.executor)|;
    forall i, j | 0 <= i < j < |s.queue| ensures s.queue[i].id < s.queue[j].id {
      assert Line(s)[n + i] == s.queue[i] && Line(s)[n + j] == s.queue[j];
    }
  }

  lemma {:induction false} NotInFront(front: seq<Run>, queue: seq<Run>, r: Run)
    requires Increasing(front + queue) && r in queue
    ensures r !in front
  {
    var k :| 0 <= k < |queue| && queue[k] == r;
    assert (front + queue)[|front| + k] == r;
    forall i | 0 <= i < |front| ensures front[i] != r {
      assert (front + queue)[i] == front[i];
    }
  }

  // ----- queueing and starting -----

  lemma {:induction false} EnlistKeeps(s: State)
    requires Valid(s)
    ensures Valid(Apply(s, Enlist))
  {
    if s.creating.Some? {
      var r := s.creating.value.run;
      var t := Apply(s, Enlist);
      assert r !in s.queued && r !in s.offQueue;
      if s.creating.value.skipQueue {
        assert Line(t) == Line(s);
      } else {
        EnlistQueued(s, t, r);
      }
    }
  }

  lemma {:induction false} EnlistQueued(s: State, t: State, r: Run)
    requires Valid(s) && s.creating.Some? && s.creating.value.run == r && !s.creating.value.skipQueue
             && t == Apply(s, Enlist)
    ensures Valid(t)
  {
    assert Line(t) == Line(s) + [r];
    AppendLater(Line(s), r);
    EnlistPlaced(s, t, r);
  }

  lemma {:induction false} EnlistPlaced(s: State, t: State, r: Run)
    requires Placed(s) && r !in s.queued && r !in s.offQueue && Elements(Line(t)) == Elements(Line(s)) + {r}
    requires t.queued == s.queued + {r} && t.runMap == s.runMap + {r} && t.started == s.started
    requires t.removed == s.removed && t.offQueue == s.offQueue && t.running == s.running && t.finished == s.finished
    ensures Placed(t)
  {
  }

  lemma {:induction false} AppendLater(line: seq<Run>, r: Run)
    requires Increasing(line) && forall x :: x in Elements(line) ==> x.id < r.id
    ensures Increasing(line + [r]) && Elements(line + [r]) == Elements(line) + {r}
  {
  }

  lemma {:induction false} SameLine(s: State, t: State)
    requires Ordered(s) && Placed(s) && Line(t) == Line(s)
    requires t.started == s.started && t.running == s.running && t.finished == s.finished && t.runMap == s.runMap
    requires t.queued == s.queued && t.removed == s.removed && t.offQueue == s.offQueue
    requires t.creating == s.creating && t.runIDCounter == s.runIDCounter
    ensures Ordered(t) && Placed(t)
  {
  }

  lemma {:induction false} TakeKeeps(s: State)
    requires Valid(s)
    ensures Valid(Apply(s, Take))
  {
    var t := Apply(s, Take);
    if s.executor.Top? && s.queue != [] {
      assert s.queue == [s.queue[0]] + s.queue[1..];
      assert Line(t) == Line(s);
    }
    SameLine(s, t);
  }

  lemma {:induction false} StartKeeps(s: State)
    requires Valid(s)
    ensures Valid(Apply(s, Start))
  {
    var t := Apply(s, Start);
    if s.executor.Acquired? {
      assert Line(t) == Line(s);
      if s.cancelled {
        SameLine(s, t);
      } else {
        StartPlaced(s, s.executor.run);
      }
    }
  }

  lemma {:induction false} StartPlaced(s: State, r: Run)
    requires Increasing(Line(s)) && s.executor == Acquired(r) && Elements(s.started) == s.running + s.finished
             && s.running !! s.finished
    ensures r !in s.running && r !in s.finished
    ensures Elements(s.started + [r]) == (s.running + {r}) + s.finished
  {
    ElementsConcat(s.started, [r]);
    assert Elements([r]) == {r};
    assert s.started + ([r] + s.queue) == Line(s);
    NotInFront(s.started, [r] + s.queue, r);
    assert r !in Elements(s.started);
  }

  lemma {:induction false} FinishKeeps(s: State, r: Run)
    requires Valid(s)
    ensures Valid(Apply(s, Finish(r)))
  {
    if r in s.running {
      assert Line(Apply(s, Finish(r))) == Line(s);
      assert |s.running - {r}| == |s.running| - 1;
    }
  }

  lemma {:induction false} StepKeepsValid(s: State, step: Step)
    requires Valid(s)
    ensures Valid(Apply(s, step))
  {
    match step
    case Enlist => EnlistKeeps(s);
    case Remove(id) => RemoveKeeps(s, id);
    case Take => TakeKeeps(s);
    case Start => StartKeeps(s);
    case Finish(r) => FinishKeeps(s, r);
    case _ => assert Line(Apply(s, step)) == Line(s);
  }

  /** Every interleaving keeps the invariant. */
  lemma {:induction false} RunKeepsValid(lastRunID: nat, limit: nat, steps: seq<Step>)
    ensures Valid(Exec(Initial(lastRunID, limit), steps))
    decreases |steps|
  {
    if steps != [] {
      RunKeepsValid(lastRunID, limit, steps[..|steps| - 1]);
      StepKeepsValid(Exec(Initial(lastRunID, limit), steps[..|steps| - 1]), steps[|steps| - 1]);
    }
  }

  // ----- what the invariant gives -----

  datatype Place = Queued | Held | Running | Finished | Removed | Dropped

  ghost predicate IsAt(s: State, r: Run, p: Place) {
    match p
    case Queued => r in s.queue
    case Held => (s.executor.Holding? || s.executor.Acquired?) && s.executor.run == r
    case Running => r in s.running
    case Finished => r in s.finished
    case Removed => r in s.removed
    case Dropped => s.executor == Stopped(Some(r))
  }

  /** A run of the line is in exactly one of its three parts. */
  lemma {:induction false} LineParts(s: State, r: Run)
    requires Increasing(Line(s))
    ensures r in Elements(Line(s)) <==> r in s.started || r in InHand(s.executor) || r in s.queue
    ensures r in s.queue ==> r !in s.started && r !in InHand(s.executor)
    ensures r in InHand(s.executor) ==> r !in s.started
  {
    var hand := InHand(s.executor);
    ElementsConcat(s.started + hand, s.queue);
    ElementsConcat(s.started, hand);
    if r in s.queue {
      NotInFront(s.started + hand, s.queue, r);
    }
    if r in hand {
      assert Line(s) == s.started + (hand + s.queue);
      NotInFront(s.started, hand + s.queue, r);
    }
  }

  /** Every run that was ever queued is in exactly one place. */
  lemma {:induction false} ExactlyOnePlace(s: State, r: Run)
    requires Valid(s) && r in s.queued
    ensures exists p :: IsAt(s, r, p)
    ensures forall p, q :: IsAt(s, r, p) && IsAt(s, r, q) ==> p == q
  {
    LineParts(s, r);
    assert r in Elements(s.started) <==> r in s.started;
    assert r in InHand(s.executor) <==> IsAt(s, r, Held) || IsAt(s, r, Dropped);
    assert IsAt(s, r, Removed) || IsAt(s, r, Running) || IsAt(s, r, Finished) || IsAt(s, r, Queued)
        || IsAt(s, r, Held) || IsAt(s, r, Dropped);
  }

  lemma {:induction false} LaterId(front: seq<Run>, tail: seq<Run>, y: Run, x: Run)
    requires Increasing(front + tail) && y in front && x in tail
    ensures y.id < x.id
  {
    var j :| 0 <= j < |front| && front[j] == y;
    var i :| 0 <= i < |tail| && tail[i] == x;
    assert (front + tail)[j] == y && (front + tail)[|front| + i] == x;
  }

  /** First come, first served: when a run has started, every run queued before it has started or was
      removed. */
  lemma {:induction false} StartsInOrder(s: State, x: Run, y: Run)
    requires Valid(s) && x in s.queued && y in s.started && x.id < y.id
    ensures x in s.started || x in s.removed
  {
    LineParts(s, x);
    var tail := InHand(s.executor) + s.queue;
    assert Line(s) == s.started + tail;
    if x in tail {
      LaterId(s.started, tail, y, x);
    }
  }

  /** The counter never repeats an id, in any step. */
  lemma {:induction false} IdsAreFresh(s: State, step: Step)
    requires Ordered(s)
    ensures Apply(s, step).runIDCounter >= s.runIDCounter
    ensures var c := Apply(s, step).creating;
            c.Some? && c != s.creating ==>
              c.value.run.id == s.runIDCounter + 1 && forall r :: r in s.queued + s.offQueue ==> r.id < c.value.run.id
  {
    if !step.Create? && !step.Enlist? {
      assert Apply(s, step).creating == s.creating && Apply(s, step).runIDCounter == s.runIDCounter;
    }
  }

  /** No two runs share an id, removed runs and runs that skip the queue included. */
  ghost predicate UniqueIds(s: State) {
    forall x, y :: x in s.queued + s.offQueue && y in s.queued + s.offQueue && x.id == y.id ==> x == y
  }

  lemma {:induction false} StepKeepsUniqueIds(s: State, step: Step)
    requires Ordered(s) && UniqueIds(s)
    ensures UniqueIds(Apply(s, step))
  {
    var t := Apply(s, step);
    if step.Enlist? && s.creating.Some? {
      assert t.queued + t.offQueue == s.queued + s.offQueue + {s.creating.value.run};
    } else {
      assert t.queued + t.offQueue == s.queued + s.offQueue;
    }
  }

  /** In every interleaving run ids are unique, and a new id exceeds all earlier ones. */
  lemma {:induction false} RunKeepsUniqueIds(lastRunID: nat, limit: nat, steps: seq<Step>)
    ensures var s := Exec(Initial(lastRunID, limit), steps);
            && UniqueIds(s)
            && (s.creating.Some? ==> forall r :: r in s.queued + s.offQueue ==> r.id < s.creating.value.run.id)
    decreases |steps|
  {
    RunKeepsValid(lastRunID, limit, steps);
    if steps != [] {
      RunKeepsUniqueIds(lastRunID, limit, steps[..|steps| - 1]);
      RunKeepsValid(lastRunID, limit, steps[..|steps| - 1]);
      StepKeepsUniqueIds(Exec(Initial(lastRunID, limit), steps[..|steps| - 1]), steps[|steps| - 1]);
    }
  }

  /** Between two moments of a run the counter only grows, and runs that appear in between have larger
      ids than all that were there: an id tells when its run was queued. */
  lemma {:induction false} LaterRunsHaveLargerIds(s: State, steps: seq<Step>, x: Run, y: Run)
    requires Valid(s) && s.creating == None && x in s.queued + s.offQueue
    requires var t := Exec(s, steps); y in t.queued + t.offQueue && y !in s.queued + s.offQueue
    ensures x.id < y.id
  {
    IdsAbove(s, steps);
  }

  lemma {:induction false} IdsAbove(s: State, steps: seq<Step>)
    requires Valid(s) && s.creating == None
    ensures var t := Exec(s, steps);
            && Valid(t) && t.runIDCounter >= s.runIDCounter
            && (t.creating.Some? ==> t.creating.value.run.id > s.runIDCounter)
            && (forall r :: r in t.queued + t.offQueue && r !in s.queued + s.offQueue ==> r.id > s.runIDCounter)
    decreases |steps|
  {
    if steps != [] {
      var k := |steps| - 1;
      IdsAbove(s, steps[..k]);
      var t := Exec(s, steps[..k]);
      StepKeepsValid(t, steps[k]);
      IdsAreFresh(t, steps[k]);
      NewRunWasCreating(t, steps[k]);
    }
  }

  lemma {:induction false} NewRunWasCreating(s: State, step: Step)
    ensures var t := Apply(s, step);
            forall r :: r in t.queued + t.offQueue ==>
              r in s.queued + s.offQueue || (s.creating.Some? && r == s.creating.value.run)
  {
  }

  /** The steps that can move the system on while there is work to do. */
  ghost predicate Enabled(s: State, step: Step) {
    match step
    case Take => s.executor.Top?
    case Wake => s.executor.Waiting? && s.token
    case Timeout => s.executor.Waiting?
    case Notify => s.notifiers > 0
    case Acquire => s.executor.Holding? && Slots(s) < s.limit
    case Start => s.executor.Acquired?
    case Finish(r) => r in s.running
    case _ => false
  }

  /** Work is never stuck: while a run is to start next, the executor, a scheduler about to notify or a
      running test can take a step. */
  lemma {:induction false} NeverStuck(s: State, r: Run)
    requires Valid(s) && IsHead(s, r)
    ensures exists step :: Enabled(s, step) && Apply(s, step) != s
  {
    match s.executor
    case Top => assert Enabled(s, Take) && Apply(s, Take) != s;
    case Acquired(r) => assert Enabled(s, Start) && Apply(s, Start).executor != s.executor;
    case Waiting =>
      if s.token { assert Enabled(s, Wake) && Apply(s, Wake) != s; }
      else { assert Enabled(s, Notify) && Apply(s, Notify) != s; }
    case Holding(r) =>
      if Slots(s) < s.limit { assert Enabled(s, Acquire) && Apply(s, Acquire) != s; }
      else {
        var x :| x in s.running;
        assert Enabled(s, Finish(x)) && x !in Apply(s, Finish(x)).running;
      }
  }

  // ----- work moves on -----

  /** The run that starts next. */
  ghost predicate IsHead(s: State, r: Run) {
    !s.executor.Stopped? && var line := InHand(s.executor) + s.queue; line != [] && line[0] == r
  }

  /** How the wait of a run can end. */
  ghost predicate Settled(s: State, r: Run) {
    r in s.started || r in s.removed || s.executor.Stopped?
  }

  /** The number of steps that can still come before the next start: moves of the executor,
      notifications and finishing runs. */
  function Measure(s: State): nat {
    s.notifiers + |s.running| +
    match s.executor
    case Waiting => 4
    case Top => 3
    case Holding(_) => 2
    case Acquired(_) => 1
    case Stopped(_) => 0
  }

  /** Until the next run starts, every step that moves the system on lowers the measure, and only a newly
      queued run raises it, by one. */
  lemma {:induction false} StepLowersMeasure(s: State, step: Step, r: Run)
    requires IsHead(s, r)
    ensures var t := Apply(s, step);
            Settled(t, r) || (IsHead(t, r) && Measure(t) + (if Enabled(s, step) then 1 else 0)
                                              <= Measure(s) + (if step.Enlist? then 1 else 0))
  {
    if step.Remove? {
      RemoveKeepsHead(s, step.id, r);
    } else {
      StepKeepsHead(s, step, r);
    }
    if IsHead(Apply(s, step), r) && !Settled(Apply(s, step), r) {
      MeasureStep(s, step);
    }
  }

  lemma {:induction false} MeasureStep(s: State, step: Step)
    requires s.queue != [] || s.executor.Holding? || s.executor.Acquired?
    requires Apply(s, step).started == s.started && !s.executor.Stopped?
    ensures Measure(Apply(s, step)) + (if Enabled(s, step) then 1 else 0)
            <= Measure(s) + (if step.Enlist? then 1 else 0)
  {
    if step.Finish? && step.run in s.running {
      assert |s.running - {step.run}| == |s.running| - 1;
    }
  }

  lemma {:induction false} StepKeepsHead(s: State, step: Step, r: Run)
    requires IsHead(s, r) && !step.Remove?
    ensures Settled(Apply(s, step), r) || (IsHead(Apply(s, step), r) && Apply(s, step).started == s.started)
  {
  }

  lemma {:induction false} RemoveKeepsHead(s: State, id: nat, r: Run)
    requires IsHead(s, r)
    ensures Settled(Apply(s, Remove(id)), r) || IsHead(Apply(s, Remove(id)), r)
  {
    if HasRun(s.queue, id) && InHand(s.executor) == [] && s.queue[0].id == id {
      assert FirstRun(s.queue, id) == r;
    }
  }

  /** Steps of the run that move the system on, and steps that queue a new run. */
  ghost function Moves(s: State, steps: seq<Step>): nat {
    if steps == [] then 0
    else
      var k := |steps| - 1;
      Moves(s, steps[..k]) + if Enabled(Exec(s, steps[..k]), steps[k]) then 1 else 0
  }

  function Enlistments(steps: seq<Step>): nat {
    if steps == [] then 0
    else Enlistments(steps[..|steps| - 1]) + if steps[|steps| - 1].Enlist? then 1 else 0
  }

  lemma {:induction false} SettledStays(s: State, step: Step, r: Run)
    requires Settled(s, r)
    ensures Settled(Apply(s, step), r)
  {
  }

  lemma {:induction false} WaitIsBounded(s: State, steps: seq<Step>, r: Run)
    requires Valid(s) && IsHead(s, r)
    ensures var t := Exec(s, steps);
            && Valid(t)
            && (Settled(t, r) || (IsHead(t, r) && Measure(t) + Moves(s, steps) <= Measure(s) + Enlistments(steps)))
    decreases |steps|
  {
    if steps != [] {
      var k := |steps| - 1;
      WaitIsBounded(s, steps[..k], r);
      var t := Exec(s, steps[..k]);
      StepKeepsValid(t, steps[k]);
      if Settled(t, r) {
        SettledStays(t, steps[k], r);
      } else {
        StepLowersMeasure(t, steps[k], r);
      }
    }
  }

  /** In every interleaving the next run starts, is removed or the executor stops before the system has
      moved on as often as the measure and the newly queued runs allow. */
  lemma {:induction false} HeadStarts(s: State, steps: seq<Step>, r: Run)
    requires Valid(s) && IsHead(s, r) && Moves(s, steps) >= Measure(s) + Enlistments(steps)
    ensures Settled(Exec(s, steps), r)
  {
    WaitIsBounded(s, steps, r);
  }

  // ----- cancelling, and the concurrency limit -----

  predicate HasCancel(steps: seq<Step>) {
    exists k :: 0 <= k < |steps| && steps[k].Cancel?
  }

  lemma {:induction false} StepCancels(s: State, step: Step)
    ensures Apply(s, step).cancelled == (s.cancelled || step.Cancel?) && Apply(s, step).limit == s.limit
    ensures Apply(s, step).executor.Stopped? ==> s.executor.Stopped? || s.cancelled
    ensures s.cancelled ==> Apply(s, step).started == s.started
  {
  }

  /** Along every run: cancelled exactly by a cancel step, stopped only after one, and nothing starts once
      it has happened. */
  lemma {:induction false} RunCancels(s: State, steps: seq<Step>)
    ensures var t := Exec(s, steps);
            && (t.cancelled <==> s.cancelled || HasCancel(steps)) && t.limit == s.limit
            && (t.executor.Stopped? ==> s.executor.Stopped? || s.cancelled || HasCancel(steps))
            && (s.cancelled ==> t.started == s.started)
    decreases |steps|
  {
    if steps != [] {
      var k := |steps| - 1;
      RunCancels(s, steps[..k]);
      StepCancels(Exec(s, steps[..k]), steps[k]);
      assert steps == steps[..k] + [steps[k]];
      assert HasCancel(steps) <==> HasCancel(steps[..k]) || steps[k].Cancel?;
    }
  }

  /** In every run from the start: the executor has stopped only if somebody cancelled, and never more tests
      run at once than were allowed; a limit of 0 allows one. */
  lemma {:induction false} StoppedOnlyByCancel(lastRunID: nat, concurrencyLimit: nat, steps: seq<Step>)
    ensures var s := Exec(Initial(lastRunID, concurrencyLimit), steps);
            && (s.executor.Stopped? ==> HasCancel(steps))
            && |s.running| <= (if concurrencyLimit < 1 then 1 else concurrencyLimit)
  {
    RunCancels(Initial(lastRunID, concurrencyLimit), steps);
    RunKeepsValid(lastRunID, concurrencyLimit, steps);
  }

  /** And the limit is used: in every run without a cancel, a run in hand starts when fewer tests run. */
  lemma {:induction false} FreeSlotStarts(lastRunID: nat, concurrencyLimit: nat, steps: seq<Step>)
    requires !HasCancel(steps)
    ensures var s := Exec(Initial(lastRunID, concurrencyLimit), steps);
            s.executor.Holding? && |s.running| < (if concurrencyLimit < 1 then 1 else concurrencyLimit) ==>
              Exec(Initial(lastRunID, concurrencyLimit), steps + [Acquire] + [Start]).started
              == s.started + [s.executor.run]
  {
    RunCancels(Initial(lastRunID, concurrencyLimit), steps);
    assert (steps + [Acquire])[..|steps|] == steps;
    assert (steps + [Acquire] + [Start])[..|steps| + 1] == steps + [Acquire];
  }

  /** Without a cancel the next run does start, unless it is removed first. */
  lemma {:induction false} HeadStartsUncancelled(s: State, steps: seq<Step>, r: Run)
    requires Valid(s) && IsHead(s, r) && !s.cancelled && !HasCancel(steps)
    requires Moves(s, steps) >= Measure(s) + Enlistments(steps)
    ensures r in Exec(s, steps).started || r in Exec(s, steps).removed
  {
    HeadStarts(s, steps, r);
    RunCancels(s, steps);
  }

  /** The steps that lead a cancelled executor to its end. */
  ghost predicate Winds(s: State, step: Step) {
    match step
    case Take => s.executor.Top?
    case Wake => s.executor.Waiting? && s.token
    case StopWaiting => s.executor.Waiting?
    case Notify => s.notifiers > 0
    case Acquire => s.executor.Holding? && Slots(s) < s.limit
    case Start => s.executor.Acquired?
    case Finish(r) => r in s.running
    case _ => false
  }

  function Remaining(s: State): nat {
    4 * s.notifiers + (if s.token then 3 else 0) + |s.running| +
    match s.executor
    case Top => 3
    case Holding(_) => 2
    case Waiting => 1
    case Acquired(_) => 1
    case Stopped(_) => 0
  }

  /** What a step of others can add: a queued run its notification, a timer one more look at the queue. */
  function Adds(step: Step): nat { if step.Enlist? then 4 else if step.Timeout? then 2 else 0 }

  lemma {:induction false} WindDownStep(s: State, step: Step)
    requires s.cancelled && !s.executor.Stopped? && !Apply(s, step).executor.Stopped?
    ensures Remaining(Apply(s, step)) + (if Winds(s, step) then 1 else 0) <= Remaining(s) + Adds(step)
  {
    if step.Finish? && step.run in s.running {
      assert |s.running - {step.run}| == |s.running| - 1;
    }
  }

  ghost function WindSteps(s: State, steps: seq<Step>): nat {
    if steps == [] then 0
    else
      var k := |steps| - 1;
      WindSteps(s, steps[..k]) + if Winds(Exec(s, steps[..k]), steps[k]) then 1 else 0
  }

  function Added(steps: seq<Step>): nat {
    if steps == [] then 0 else Added(steps[..|steps| - 1]) + Adds(steps[|steps| - 1])
  }

  lemma {:induction false} WindDown(s: State, steps: seq<Step>)
    requires s.cancelled
    ensures var t := Exec(s, steps);
            t.cancelled && (t.executor.Stopped? || Remaining(t) + WindSteps(s, steps) <= Remaining(s) + Added(steps))
    decreases |steps|
  {
    if steps != [] {
      var k := |steps| - 1;
      WindDown(s, steps[..k]);
      var t := Exec(s, steps[..k]);
      StepCancels(t, steps[k]);
      if t.executor.Stopped? {
        assert Apply(t, steps[k]).executor.Stopped?;
      } else if !Apply(t, steps[k]).executor.Stopped? {
        WindDownStep(t, steps[k]);
      }
    }
  }

  /** A cancelled executor stops, in every interleaving, before the system has moved on as often as what was
      left to do and what others added allow. */
  lemma {:induction false} CancelStops(s: State, steps: seq<Step>)
    requires s.cancelled && WindSteps(s, steps) > Remaining(s) + Added(steps)
    ensures Exec(s, steps).executor.Stopped?
  {
    WindDown(s, steps);
  }

  function Notifications(steps: seq<Step>): nat {
    if steps == [] then 0
    else Notifications(steps[..|steps| - 1]) + if steps[|steps| - 1].Notify? then 1 else 0
  }

  ghost function WakeUps(s: State, steps: seq<Step>): nat {
    if steps == [] then 0
    else
      var k := |steps| - 1;
      WakeUps(s, steps[..k]) + if steps[k].Wake? && Enabled(Exec(s, steps[..k]), Wake) then 1 else 0
  }

  /** No wake-up without a notification of its own: a notification is used up. */
  lemma {:induction false} WakeUpsWithinNotifications(s: State, steps: seq<Step>)
    ensures WakeUps(s, steps) + (if Exec(s, steps).token then 1 else 0)
            <= Notifications(steps) + (if s.token then 1 else 0)
    decreases |steps|
  {
    if steps != [] {
      WakeUpsWithinNotifications(s, steps[..|steps| - 1]);
      TokenStep(Exec(s, steps[..|steps| - 1]), steps[|steps| - 1]);
    }
  }

  lemma {:induction false} TokenStep(s: State, step: Step)
    ensures var t := Apply(s, step);
            t.token <==> (s.token && !(step.Wake? && s.executor.Waiting?)) || (step.Notify? && s.notifiers > 0)
  {
  }

  // ----- no duplicate tests -----

  ghost predicate UniqueTests(queue: seq<Run>) {
    forall i, j :: 0 <= i < j < |queue| ==> queue[i].test != queue[j].test
  }

  ghost predicate DistinctTests(s: State) {
    && UniqueTests(s.queue)
    && (s.creating.Some? && !s.creating.value.skipQueue ==> !HasTest(s.queue, s.creating.value.run.test))
  }

  lemma {:induction false} RemoveRunTests(queue: seq<Run>, id: nat)
    requires UniqueTests(queue)
    ensures UniqueTests(RemoveRun(queue, id)) && forall r :: r in RemoveRun(queue, id) ==> r in queue
    decreases |queue|
  {
    if queue != [] && queue[0].id != id {
      RemoveRunTests(queue[1..], id);
      var rest := RemoveRun(queue[1..], id);
      var q := [queue[0]] + rest;
      forall r | r in q ensures r in queue {
        assert r in rest ==> r in queue[1..];
      }
      forall j | 0 < j < |q| ensures q[0].test != q[j].test {
        assert q[j] == rest[j - 1] && rest[j - 1] in queue[1..];
        var k :| 0 <= k < |queue| - 1 && queue[1..][k] == q[j];
        assert queue[k + 1] == q[j];
      }
      assert forall j :: 0 < j < |q| ==> q[j] == rest[j - 1];
    }
  }

  lemma {:induction false} SubQueueTests(s: State, t: State)
    requires DistinctTests(s) && t.creating == s.creating && forall r :: r in t.queue ==> r in s.queue
    requires UniqueTests(t.queue)
    ensures DistinctTests(t)
  {
    forall i | 0 <= i < |t.queue| ensures exists k :: 0 <= k < |s.queue| && s.queue[k] == t.queue[i] {
      assert t.queue[i] in s.queue;
    }
  }

  lemma {:induction false} StepKeepsDistinctTests(s: State, step: Step)
    requires DistinctTests(s) && (step.Create? ==> !step.allowDuplicate)
    ensures DistinctTests(Apply(s, step))
  {
    var t := Apply(s, step);
    match step
    case Create(_, _, _, _) => assert t.queue == s.queue;
    case Enlist =>
    case Remove(id) =>
      if HasRun(s.queue, id) {
        RemoveRunTests(s.queue, id);
        assert t.queue == RemoveRun(s.queue, id) && t.creating == s.creating;
        SubQueueTests(s, t);
      }
    case Take =>
      if s.executor.Top? && s.queue != [] {
        assert forall i :: 0 <= i < |t.queue| ==> t.queue[i] == s.queue[i + 1];
        SubQueueTests(s, t);
      }
    case _ =>
      assert t.queue == s.queue && t.creating == s.creating;
  }

  /** As long as no scheduler allows duplicates, no test is queued twice, although the queue is checked
      and extended in different mutex sections. */
  lemma {:induction false} NoDuplicateTests(s: State, steps: seq<Step>)
    requires DistinctTests(s)
    requires forall i :: 0 <= i < |steps| ==> steps[i].Create? ==> !steps[i].allowDuplicate
    ensures DistinctTests(Exec(s, steps))
    decreases |steps|
  {
    if steps != [] {
      NoDuplicateTests(s, steps[..|steps| - 1]);
      StepKeepsDistinctTests(Exec(s, steps[..|steps| - 1]), steps[|steps| - 1]);
    }
  }

  // ----- the mutex sections as they are written -----

  ghost predicate SameRuns(runs: set<Run>, m: map<nat, Run>) {
    && (forall r :: r in runs ==> r.id in m && m[r.id] == r)
    && (forall id :: id in m ==> m[id].id == id && m[id] in runs)
  }

  lemma {:induction false} AddSameRuns(runs: set<Run>, m: map<nat, Run>, r: Run)
    requires SameRuns(runs, m) && forall x :: x in runs ==> x.id < r.id
    ensures SameRuns(runs + {r}, m[r.id := r])
  {
  }

  lemma {:induction false} RemoveSameRuns(s: State, m: map<nat, Run>, id: nat)
    requires Ordered(s) && Placed(s) && SameRuns(s.runMap, m) && HasRun(s.queue, id)
    ensures SameRuns(Apply(s, Remove(id)).runMap, m - {id})
  {
  }

  /** A valid state with these fields. */
  ghost predicate Couples(s: State, runIDCounter: nat, runs: map<nat, Run>, queue: seq<Run>, token: bool) {
    && Valid(s) && s.runIDCounter == runIDCounter && s.queue == queue && s.token == token
    && SameRuns(s.runMap, runs)
  }

  /** `after` is `before` without its run at position `i`, which has this id. */
  ghost predicate RemovedAt(before: seq<Run>, after: seq<Run>, id: nat, i: int) {
    0 <= i < |before| && before[i].id == id && after == before[..i] + before[i + 1..]
  }

  /** The run at position `i` is the first one of this id, or there is none. */
  ghost predicate FoundAt(queue: seq<Run>, id: nat, i: nat) {
    && i <= |queue| && (i < |queue| <==> HasRun(queue, id))
    && (forall k :: 0 <= k < i ==> queue[k].id != id) && (i < |queue| ==> queue[i].id == id)
  }

  lemma {:induction false} RemoveStep(s: State, counter: nat, m: map<nat, Run>, queue: seq<Run>, token: bool,
                                      i: nat, id: nat)
    requires Couples(s, counter, m, queue, token) && FoundAt(queue, id, i)
    ensures var t := Apply(s, Remove(id));
            if i == |queue| then t == s
            else Couples(t, counter, m - {id}, queue[..i] + queue[i + 1..], token)
  {
    StepKeepsValid(s, Remove(id));
    RemoveAt(s.queue, i, id);
    if i < |s.queue| {
      RemoveSameRuns(s, m, id);
    }
  }

  class TestRunner {
    var runIDCounter: nat
    var testRunMap: map<nat, Run>
    var testQueue: seq<Run>
    var queueNotification: bool    // the notification channel is full
    ghost var model: State

    /** The fields are those of the state machine. */
    ghost predicate Coupled()
      reads this
    {
      Couples(model, runIDCounter, testRunMap, testQueue, queueNotification)
    }

    constructor (lastRunID: nat, ghost limit: nat)
      ensures Coupled() && model == Initial(lastRunID, limit)
    {
      runIDCounter, testRunMap, testQueue, queueNotification := lastRunID, map[], [], false;
      model := Initial(lastRunID, limit);
    }

    /** The duplicate check and the new id, under the scheduler mutex. */
    method CreateRun(test: nat, allowDuplicate: bool, skipQueue: bool, created: bool) returns (run: Option<Run>)
      requires Coupled() && model.creating == None
      modifies `runIDCounter, `model
      ensures Coupled() && model == Apply(old(model), Create(test, allowDuplicate, skipQueue, created))
      ensures run == if model.creating.Some? then Some(model.creating.value.run) else None
      ensures run.Some? <==>
              created && (allowDuplicate || forall i :: 0 <= i < |testQueue| ==> testQueue[i].test != test)
      ensures run.Some? ==> run.value == Run(old(runIDCounter) + 1, test) && runIDCounter == old(runIDCounter) + 1
    {
      var duplicate := false;
      if !allowDuplicate {
        duplicate := FindTest(testQueue, test);
      }
      StepKeepsValid(model, Create(test, allowDuplicate, skipQueue, created));
      model := Apply(model, Create(test, allowDuplicate, skipQueue, created));
      if duplicate {
        return None;
      }
      runIDCounter := runIDCounter + 1;
      return if created then Some(Run(runIDCounter, test)) else None;
    }

    static method FindTest(queue: seq<Run>, test: nat) returns (found: bool)
      ensures found <==> HasTest(queue, test)
    {
      for i := 0 to |queue|
        invariant forall k :: 0 <= k < i ==> queue[k].test != test
      {
        if queue[i].test == test {
          return true;
        }
      }
      return false;
    }

    method EnlistRun(run: Run, skipQueue: bool)
      requires Coupled() && model.creating.Some? && model.creating.value.run == run
               && model.creating.value.skipQueue == skipQueue
      modifies `testQueue, `testRunMap, `model
      ensures Coupled() && model == Apply(old(model), Enlist)
      ensures testQueue == (if skipQueue then old(testQueue) else old(testQueue) + [run])
      ensures testRunMap == old(testRunMap)[run.id := run]
    {
      StepKeepsValid(model, Enlist);
      AddSameRuns(model.runMap, testRunMap, run);
      model := Apply(model, Enlist);
      if !skipQueue {
        testQueue := testQueue + [run];
      }
      testRunMap := testRunMap[run.id := run];
    }

    /** A full channel is left as it is. */
    method NotifyQueue()
      requires Coupled() && model.notifiers > 0
      modifies `queueNotification, `model
      ensures Coupled() && model == Apply(old(model), Notify) && queueNotification
    {
      StepKeepsValid(model, Notify);
      model := Apply(model, Notify);
      if !queueNotification {
        queueNotification := true;
      }
    }

    method RemoveTestFromQueue(id: nat) returns (found: bool)
      requires Coupled()
      modifies `testQueue, `testRunMap, `model
      ensures Coupled() && model == Apply(old(model), Remove(id))
      ensures found <==> exists i :: 0 <= i < |old(testQueue)| && old(testQueue)[i].id == id
      ensures !found ==> testQueue == old(testQueue) && testRunMap == old(testRunMap)
      ensures found ==> testRunMap == old(testRunMap) - {id} && exists i :: RemovedAt(old(testQueue), testQueue, id, i)
    {
      var i := FindRun(testQueue, id);
      ghost var next := Apply(model, Remove(id));
      RemoveStep(model, runIDCounter, testRunMap, testQueue, queueNotification, i, id);
      if i == |testQueue| {
        return false;
      }
      model := next;
      testQueue := testQueue[..i] + testQueue[i + 1..];
      testRunMap := testRunMap - {id};
      assert RemovedAt(old(testQueue), testQueue, id, i);
      return true;
    }

    /** Position of the first run with this id, or the length of the queue. */
    static method FindRun(queue: seq<Run>, id: nat) returns (i: nat)
      ensures FoundAt(queue, id, i)
    {
      i := 0;
      while i < |queue| && queue[i].id != id
        invariant i <= |queue|
        invariant forall k :: 0 <= k < i ==> queue[k].id != id
      {
        i := i + 1;
      }
    }

    /** The executor's look at the queue. */
    method TakeNext() returns (next: Option<Run>)
      requires Coupled() && model.executor.Top?
      modifies `testQueue, `model
      ensures Coupled() && model == Apply(old(model), Take)
      ensures next == if old(testQueue) == [] then None else Some(old(testQueue)[0])
      ensures testQueue == if old(testQueue) == [] then [] else old(testQueue)[1..]
    {
      StepKeepsValid(model, Take);
      model := Apply(model, Take);
      next := None;
      if |testQueue| > 0 {
        next := Some(testQueue[0]);
        testQueue := testQueue[1..];
      }
    }
  }

  lemma {:induction false} RemoveAt(queue: seq<Run>, i: nat, id: nat)
    requires i <= |queue| && (forall k :: 0 <= k < i ==> queue[k].id != id) && (i < |queue| ==> queue[i].id == id)
    ensures RemoveRun(queue, id) == if i < |queue| then queue[..i] + queue[i + 1..] else queue
    decreases |queue|
  {
    if queue != [] && i > 0 {
      var tail := queue[1..];
      assert forall k :: 0 <= k < |tail| ==> tail[k] == queue[k + 1];
      RemoveAt(tail, i - 1, id);
      if i < |queue| {
        assert [queue[0]] + (tail[..i - 1] + tail[i..]) == queue[..i] + queue[i + 1..];
      }
    }
  }
}
