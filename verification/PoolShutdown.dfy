/** What becomes of the queue of a worker pool that is stopped. */
module PoolShutdown {
  import opened Options
  import opened WorkerPool

  // ----- draining

  /** Since the channel closed, an uncancelled worker has left only on an empty queue. */
  ghost predicate Drained(s: Pool) {
    s.closed && (exists i :: 0 <= i < |s.workers| && !s.workers[i].cancelled && Left(s.workers[i])) ==> s.queue == []
  }

  lemma DrainedWorkerStep(s: Pool, i: nat, act: WorkerAction, s': Pool)
    requires Drained(s) && i < |s.workers| && WorkerStep(s, i, act) == Some(s')
    ensures Drained(s')
  {
    var m := WorkerMove(s.workers[i], s.queue, s.closed, act).value;
    MovePhases(s.workers[i], s.queue, s.closed, act, m);
    if j :| s'.closed && 0 <= j < |s'.workers| && !s'.workers[j].cancelled && Left(s'.workers[j]) {
      assert j != i ==> s.workers[j] == s'.workers[j];
      assert Left(s.workers[i]) || m.phase == Leaving || j != i;
    }
  }

  lemma DrainedAdjusterStep(c: Config, s: Pool, act: AdjusterAction, s': Pool)
    requires Scaled(c, s) && Drained(s) && AdjusterStep(c, s, act) == Some(s')
    ensures Drained(s')
  {
    forall j | 0 <= j < |s'.workers| && !s'.workers[j].cancelled && Left(s'.workers[j])
      ensures j < |s.workers| && !s.workers[j].cancelled && Left(s.workers[j])
    {
      match act
      case CancelOne => assert s'.workers[j].phase == s.workers[j].phase;
      case _ =>
    }
  }

  lemma DrainedStep(c: Config, s: Pool, a: Action, s': Pool)
    requires Scaled(c, s) && Drained(s) && Step(c, s, a) == Some(s') && (s.closed ==> !a.Submit?)
    ensures Drained(s')
  {
    match a
    case ByWorker(i, act) => DrainedWorkerStep(s, i, act, s');
    case ByAdjuster(act) => DrainedAdjusterStep(c, s, act, s');
    case CloseStop => assert forall j :: 0 <= j < |s.workers| ==> Orderly(s.workers[j], s.closed);
    case _ =>
  }

  lemma {:induction false} DrainedRun(c: Config, ss: seq<Pool>, acts: seq<Action>)
    requires Run(c, ss, acts) && c.minWorkers <= c.maxWorkers
    requires forall i :: 0 <= i < |acts| && ss[i].closed ==> !acts[i].Submit?
    ensures Drained(ss[|acts|])
  {
    if acts != [] {
      var n := |acts| - 1;
      DrainedRun(c, ss[..n + 1], acts[..n]);
      RunKeepsScaled(c, ss[..n + 1], acts[..n]);
      DrainedStep(c, ss[n], acts[n], ss[n + 1]);
    }
  }

  /** If nothing is submitted after the stop and some worker was never cancelled, then once `Stop` returns
      every accepted task has been run to its end, each exactly once. */
  lemma StopFinishesEverything(c: Config, ss: seq<Pool>, acts: seq<Action>, i: nat)
    requires Run(c, ss, acts) && c.minWorkers <= c.maxWorkers
    requires forall j :: 0 <= j < |acts| && ss[j].closed ==> !acts[j].Submit?
    requires var s := ss[|acts|]; StopReturned(s) && i < |s.workers| && !s.workers[i].cancelled
    ensures ss[|acts|].queue == [] && multiset(ss[|acts|].accepted) == multiset(ss[|acts|].finished)
  {
    DrainedRun(c, ss, acts);
    assert Left(ss[|acts|].workers[i]);
    RunConserves(c, ss, acts);
    forall t ensures multiset(ss[|acts|].accepted)[t] == multiset(ss[|acts|].finished)[t] {
      InHandNone(ss[|acts|].workers, t);
      assert Accounted(ss[|acts|], t);
    }
  }

  /** The same from the configuration alone: with a minimum of at least one worker, and no cancelled worker left
      at the samples that lead to a cancellation, no accepted task is lost. */
  lemma QuietPoolLosesNothing(c: Config, ss: seq<Pool>, acts: seq<Action>)
    requires Run(c, ss, acts) && 1 <= c.minWorkers <= c.maxWorkers
    requires forall j :: 0 <= j < |acts| && ss[j].closed ==> !acts[j].Submit?
    requires forall i: nat, n: nat :: CancelsAfter(acts, i, n) ==> Zombies(ss[i].workers) == 0
    requires StopReturned(ss[|acts|])
    ensures ss[|acts|].queue == [] && multiset(ss[|acts|].accepted) == multiset(ss[|acts|].finished)
  {
    MinimumHolds(c, ss, acts);
    RunKeepsScaled(c, ss, acts);
    assert |ss[|acts|].cancels| >= 1;
    StopFinishesEverything(c, ss, acts, ss[|acts|].cancels[0]);
  }

  // ----- from the moment of the stop

  /** The adjustment under way may still cancel a worker, if a load sample yet to come finds at least `tasks`
      tasks queued. */
  predicate MayCancel(c: Config, s: Pool, tasks: nat) {
    match s.adjuster
    case Checked => Capacity(c) > 0 && WouldScaleDown(c, tasks * 100 / Capacity(c), s.counter)
    case LoadSampled(pct) => WouldScaleDown(c, pct, s.counter)
    case WorkersSampled(pct, current) => WouldScaleDown(c, pct, current)
    case Cancelling => true
    case _ => false
  }

  /** How many workers are then sure to escape cancellation once the pool is stopped. */
  function Survivors(c: Config, s: Pool, tasks: nat): int {
    |s.cancels|
    + (if s.adjuster == Counting || s.adjuster == Registering then 1 else 0)
    - (if MayCancel(c, s, tasks) then 1 else 0)
  }

  lemma TimesKeepsOrder(x: int, y: int, d: nat)
    requires x <= y
    ensures x * d <= y * d
  {
    assert y * d - x * d == (y - x) * d;
  }

  lemma MoreLoad(few: nat, many: nat, capacity: nat)
    requires few <= many && capacity > 0
    ensures few * 100 / capacity <= many * 100 / capacity
  {
    QuotientKeepsOrder(few * 100, many * 100, capacity);
  }

  lemma QuotientKeepsOrder(a: nat, b: nat, d: nat)
    requires a <= b && d > 0
    ensures a / d <= b / d
  {
    var low, high := a / d, b / d;
    assert a == low * d + a % d && b == high * d + b % d;
    assert (high + 1) * d == high * d + d;
    if low > high { TimesKeepsOrder(high + 1, low, d); }
  }

  lemma SurvivorsStep(c: Config, s: Pool, a: Action, s': Pool, tasks: nat)
    requires s.stopped && Survivors(c, s, tasks) >= 1 && Step(c, s, a) == Some(s')
    requires a == ByAdjuster(SampleLoad) ==> |s.queue| >= tasks
    ensures s'.stopped && Survivors(c, s', tasks) >= 1
  {
    if a == ByAdjuster(SampleLoad) { MoreLoad(tasks, |s.queue|, Capacity(c)); }
  }

  lemma {:induction false} SurvivorsStay(c: Config, ss: seq<Pool>, acts: seq<Action>, n: nat, k: nat)
    requires Path(c, ss, acts) && n <= k <= |acts| && ss[n].stopped && Survivors(c, ss[n], 0) >= 1
    ensures ss[k].stopped && Survivors(c, ss[k], 0) >= 1
    decreases k
  {
    if n < k {
      SurvivorsStay(c, ss, acts, n, k - 1);
      SurvivorsStep(c, ss[k - 1], acts[k - 1], ss[k], 0);
    }
  }

  /** If at some moment after `Stop` began a worker is sure to survive whatever the load, and nothing is submitted
      once the stop channel is closed, then every accepted task has been run to its end when `Stop` returns. */
  lemma StopWithSurvivorFinishes(c: Config, ss: seq<Pool>, acts: seq<Action>, n: nat)
    requires Run(c, ss, acts) && c.minWorkers <= c.maxWorkers && n <= |acts|
    requires ss[n].stopped && Survivors(c, ss[n], 0) >= 1
    requires forall j :: 0 <= j < |acts| && ss[j].closed ==> !acts[j].Submit?
    requires StopReturned(ss[|acts|])
    ensures ss[|acts|].queue == [] && multiset(ss[|acts|].accepted) == multiset(ss[|acts|].finished)
  {
    SurvivorsStay(c, ss, acts, n, |acts|);
    RunKeepsScaled(c, ss, acts);
    assert |ss[|acts|].cancels| >= 1;
    StopFinishesEverything(c, ss, acts, ss[|acts|].cancels[0]);
  }

  ghost predicate NothingSubmitted(acts: seq<Action>) {
    forall i :: 0 <= i < |acts| ==> !acts[i].Submit?
  }

  /** From `s` on nothing is submitted, and at the end `Stop` has returned. */
  ghost predicate StopsFrom(c: Config, s: Pool, ss: seq<Pool>, acts: seq<Action>) {
    Path(c, ss, acts) && ss[0] == s && NothingSubmitted(acts) && StopReturned(ss[|acts|])
  }

  lemma Before(c: Config, s: Pool, a: Action, ss: seq<Pool>, acts: seq<Action>)
      returns (ss': seq<Pool>, acts': seq<Action>)
    requires ss != [] && StopsFrom(c, ss[0], ss, acts) && Step(c, s, a) == Some(ss[0]) && !a.Submit?
    ensures StopsFrom(c, s, ss', acts') && ss'[|acts'|] == ss[|acts|]
  {
    ss', acts' := [s] + ss, [a] + acts;
  }

  function Rank(p: Phase): nat {
    match p
    case Running(_, _) => 3
    case Waiting => 2
    case Leaving => 1
    case _ => 0
  }

  /** Nothing but cancelled workers that no longer look at the queue. */
  ghost predicate Deserted(s: Pool, from: nat) {
    && s.closed && s.adjuster == Gone && from <= |s.workers|
    && (forall i :: 0 <= i < from ==> s.workers[i].phase == Exited)
    && forall i :: from <= i < |s.workers| ==>
         && s.workers[i].cancelled && s.workers[i].phase != NotLaunched && s.workers[i].phase != Draining
         && !(s.workers[i].phase.Running? && s.workers[i].phase.draining)
  }

  lemma {:induction false} EverybodyLeaves(c: Config, s: Pool, from: nat) returns (ss: seq<Pool>, acts: seq<Action>)
    requires Deserted(s, from)
    ensures StopsFrom(c, s, ss, acts) && ss[|acts|].queue == s.queue
    decreases |s.workers| - from, if from < |s.workers| then Rank(s.workers[from].phase) else 0
  {
    if from == |s.workers| {
      ss, acts := [s], [];
    } else if s.workers[from].phase == Exited {
      ss, acts := EverybodyLeaves(c, s, from + 1);
    } else {
      var act := match s.workers[from].phase
        case Running(_, _) => Finish
        case Waiting => SeeCancel
        case _ => Exit;
      var s' := Step(c, s, ByWorker(from, act)).value;
      ss, acts := EverybodyLeaves(c, s', from);
      ss, acts := Before(c, s, ByWorker(from, act), ss, acts);
    }
  }

  function AdjusterRank(a: Adjuster): nat {
    match a
    case Checked => 4
    case LoadSampled(_) => 3
    case WorkersSampled(_, _) => 2
    case Idle => 0
    case _ => 1
  }

  /** The next step of an adjustment under way in a stopped pool; a decision falls when the cooldown is over. */
  function NextAdjustment(c: Config, s: Pool): AdjusterAction {
    match s.adjuster
    case Checked => SampleLoad
    case LoadSampled(_) => SampleWorkers
    case WorkersSampled(_, _) => Decide(s.lastScaled + c.cooldown)
    case Cancelling => CancelOne
    case _ => CheckStopped
  }

  /** Tasks are queued, and no worker is sure to survive a sample that finds a task. */
  ghost predicate Doomed(c: Config, s: Pool) {
    Scaled(c, s) && s.stopped && !s.closed && s.queue != [] && Survivors(c, s, 1) <= 0
  }

  lemma NoSpawnWhenDoomed(c: Config, s: Pool)
    requires Doomed(c, s)
    ensures s.adjuster != Counting && s.adjuster != Registering && s.adjuster != Launching && s.adjuster != Gone
  {
    assert s.adjuster == Launching ==> |s.workers| - 1 in s.cancels;
  }

  /** While one worker is left and the load is yet to be sampled, that worker first works off all but one task. */
  ghost predicate WorksOff(s: Pool) {
    s.adjuster == Checked && s.cancels != [] && |s.queue| > 1
  }

  lemma DoomedStep(c: Config, s: Pool) returns (s': Pool)
    requires Doomed(c, s) && s.adjuster != Idle && !WorksOff(s)
    ensures AdjusterStep(c, s, NextAdjustment(c, s)) == Some(s')
    ensures Doomed(c, s') && AdjusterRank(s'.adjuster) < AdjusterRank(s.adjuster)
  {
    NoSpawnWhenDoomed(c, s);
    s' := AdjusterStep(c, s, NextAdjustment(c, s)).value;
    AdjusterStepScaled(c, s, NextAdjustment(c, s), s');
  }

  /** The last worker takes a task, or finishes the one it has. */
  function WorkOff(s: Pool): WorkerAction
    requires s.cancels != [] && s.cancels[0] < |s.workers|
  {
    if s.workers[s.cancels[0]].phase.Running? then Finish else Take
  }

  lemma WorkOffStep(c: Config, s: Pool) returns (w: nat, act: WorkerAction, s': Pool)
    requires Doomed(c, s) && WorksOff(s)
    ensures w < |s.workers| && WorkerStep(s, w, act) == Some(s') && Doomed(c, s')
    ensures s'.adjuster == Checked && s'.cancels == s.cancels && w == s.cancels[0] < |s'.workers|
    ensures |s'.queue| < |s.queue|
            || (s'.queue == s.queue && s.workers[w].phase.Running? && !s'.workers[w].phase.Running?)
  {
    w := s.cancels[0];
    act := WorkOff(s);
    assert Orderly(s.workers[w], s.closed) by { assert s.workers[w] in s.workers; }
    s' := WorkerStep(s, w, act).value;
    WorkerStepScaled(c, s, w, act, s');
  }

  lemma DoomedIsDeserted(c: Config, s: Pool, s': Pool)
    requires Doomed(c, s) && s.adjuster == Idle && s' == s.(closed := true, adjuster := Gone)
    ensures Deserted(s', 0)
  {
    forall i | 0 <= i < |s.workers| ensures s.workers[i].cancelled {
      assert !s.workers[i].cancelled ==> i in s.cancels;
    }
    forall i | 0 <= i < |s.workers| ensures Orderly(s.workers[i], s.closed) { assert s.workers[i] in s.workers; }
  }

  function Busy(s: Pool): nat {
    if s.cancels != [] && s.cancels[0] < |s.workers| && s.workers[s.cancels[0]].phase.Running? then 1 else 0
  }

  /** Without a sure survivor everybody may leave before the queue is empty. */
  lemma {:induction false} DoomedLosesTasks(c: Config, s: Pool) returns (ss: seq<Pool>, acts: seq<Action>)
    requires Doomed(c, s)
    ensures StopsFrom(c, s, ss, acts) && ss[|acts|].queue != []
    decreases AdjusterRank(s.adjuster), |s.queue|, Busy(s)
  {
    if s.adjuster == Idle {
      var s1 := s.(closed := true);
      var s2 := s1.(adjuster := Gone);
      DoomedIsDeserted(c, s, s2);
      ss, acts := EverybodyLeaves(c, s2, 0);
      ss, acts := Before(c, s1, ByAdjuster(Leave), ss, acts);
      ss, acts := Before(c, s, CloseStop, ss, acts);
    } else if WorksOff(s) {
      var w, act, s' := WorkOffStep(c, s);
      ss, acts := DoomedLosesTasks(c, s');
      ss, acts := Before(c, s, ByWorker(w, act), ss, acts);
    } else {
      var s' := DoomedStep(c, s);
      ss, acts := DoomedLosesTasks(c, s');
      ss, acts := Before(c, s, ByAdjuster(NextAdjustment(c, s)), ss, acts);
    }
  }

  lemma Joined(c: Config, ss: seq<Pool>, acts: seq<Action>, ss': seq<Pool>, acts': seq<Action>)
    requires Run(c, ss, acts) && Path(c, ss', acts') && ss'[0] == ss[|acts|]
    ensures var all, steps := ss[..|acts|] + ss', acts + acts';
            Run(c, all, steps) && all[|acts|] == ss[|acts|] && all[|steps|] == ss'[|acts'|]
    ensures forall i :: 0 <= i <= |acts| ==> (ss[..|acts|] + ss')[i] == ss[i]
  {
    var all, steps, n := ss[..|acts|] + ss', acts + acts', |acts|;
    forall i | 0 <= i < |steps| ensures Step(c, all[i], steps[i]) == Some(all[i + 1]) {
      if i < n {
        assert steps[i] == acts[i] && all[i] == ss[i] && all[i + 1] == ss[i + 1];
      } else {
        assert steps[i] == acts'[i - n] && all[i] == ss'[i - n] && all[i + 1] == ss'[i + 1 - n];
      }
    }
  }

  lemma ClosedMeansEarlierSubmits(c: Config, ss: seq<Pool>, acts: seq<Action>, j: nat)
    requires Path(c, ss, acts) && j <= |acts| && !ss[|acts|].closed
    ensures !ss[j].closed
  {
    if ss[j].closed { ClosedStays(c, ss, acts, j, |acts|); }
  }

  ghost predicate Safe(c: Config, s: Pool) {
    s.queue == [] || Survivors(c, s, 1) >= 1
  }

  /** Without submissions a safe pool stays safe. */
  lemma {:induction false} SafeStays(c: Config, ss: seq<Pool>, acts: seq<Action>)
    requires Path(c, ss, acts) && NothingSubmitted(acts) && ss[0].stopped && Safe(c, ss[0])
    ensures ss[|acts|].stopped && Safe(c, ss[|acts|])
  {
    if acts != [] {
      var n := |acts| - 1;
      SafeStays(c, ss[..n + 1], acts[..n]);
      assert Step(c, ss[n], acts[n]) == Some(ss[n + 1]);
      if ss[n].queue != [] { SurvivorsStep(c, ss[n], acts[n], ss[n + 1], 1); }
    }
  }

  /** The queue is empty whenever `Stop` returns, with no submission after it was called, exactly when it was
      empty at the call or some worker was then sure to survive: an uncancelled one that the adjustment under
      way cannot cancel any more, whatever part of the queue it finds, or one in mid-spawn. */
  lemma StopEmptiesQueueIff(c: Config, ss: seq<Pool>, acts: seq<Action>)
    requires Run(c, ss, acts) && c.minWorkers <= c.maxWorkers && ss[|acts|].stopped && !ss[|acts|].closed
    ensures (forall ss': seq<Pool>, acts': seq<Action> ::
              StopsFrom(c, ss[|acts|], ss', acts') ==> ss'[|acts'|].queue == [])
            <==> Safe(c, ss[|acts|])
  {
    var s := ss[|acts|];
    RunKeepsScaled(c, ss, acts);
    if Safe(c, s) {
      forall ss': seq<Pool>, acts': seq<Action> | StopsFrom(c, s, ss', acts') ensures ss'[|acts'|].queue == [] {
        SafeContinuation(c, ss, acts, ss', acts');
      }
    } else {
      var ss', acts' := DoomedLosesTasks(c, s);
    }
  }

  lemma SafeContinuation(c: Config, ss: seq<Pool>, acts: seq<Action>, ss': seq<Pool>, acts': seq<Action>)
    requires Run(c, ss, acts) && c.minWorkers <= c.maxWorkers && ss[|acts|].stopped && !ss[|acts|].closed
    requires Safe(c, ss[|acts|]) && StopsFrom(c, ss[|acts|], ss', acts')
    ensures ss'[|acts'|].queue == []
  {
    var all, steps, n := ss[..|acts|] + ss', acts + acts', |acts|;
    Joined(c, ss, acts, ss', acts');
    forall j | 0 <= j < |steps| && all[j].closed ensures !steps[j].Submit? {
      if j < n { ClosedMeansEarlierSubmits(c, ss, acts, j); } else { assert steps[j] == acts'[j - n]; }
    }
    SafeStays(c, ss', acts');
    if ss'[|acts'|].queue != [] {
      RunKeepsScaled(c, all, steps);
      StopFinishesEverything(c, all, steps, all[|steps|].cancels[0]);
    }
  }

  // ----- nothing gets stuck

  /** The next step of the adjusting goroutine on its way out. */
  function WayOut(c: Config, s: Pool): AdjusterAction {
    match s.adjuster
    case Counting => CountWorker
    case Registering => RegisterCancel
    case Launching => Launch
    case Idle => Leave
    case _ => NextAdjustment(c, s)
  }

  function WayOutRank(a: Adjuster): nat {
    match a
    case Checked => 8
    case LoadSampled(_) => 7
    case WorkersSampled(_, _) => 6
    case Spawning => 5
    case Counting => 4
    case Registering => 3
    case Launching => 2
    case Cancelling => 2
    case Idle => 1
    case Gone => 0
  }

  lemma WayOutStep(c: Config, s: Pool) returns (s': Pool)
    requires Scaled(c, s) && s.closed && s.adjuster != Gone
    ensures AdjusterStep(c, s, WayOut(c, s)) == Some(s') && Scaled(c, s') && s'.closed
    ensures WayOutRank(s'.adjuster) < WayOutRank(s.adjuster)
  {
    s' := AdjusterStep(c, s, WayOut(c, s)).value;
    AdjusterStepScaled(c, s, WayOut(c, s), s');
  }

  lemma {:induction false} AdjusterLeaves(c: Config, s: Pool) returns (ss: seq<Pool>, acts: seq<Action>)
    requires Scaled(c, s) && s.closed
    ensures StopsFrom(c, s, ss, acts)
    decreases WayOutRank(s.adjuster)
  {
    if s.adjuster == Gone {
      ss, acts := WorkersLeave(c, s, 0);
    } else {
      var s' := WayOutStep(c, s);
      ss, acts := AdjusterLeaves(c, s');
      ss, acts := Before(c, s, ByAdjuster(WayOut(c, s)), ss, acts);
    }
  }

  /** The next step of a worker once the stop channel is closed. */
  function WorkerOut(w: Worker, queue: seq<Task>): WorkerAction {
    match w.phase
    case Running(_, _) => Finish
    case Waiting => if w.cancelled then SeeCancel else SeeStop
    case Draining => if queue != [] then Take else FindEmpty
    case _ => Exit
  }

  function WorkerRank(p: Phase): nat {
    match p
    case Running(_, _) => 4
    case Waiting => 3
    case Draining => 2
    case Leaving => 1
    case _ => 0
  }

  lemma {:induction false} WorkersLeave(c: Config, s: Pool, from: nat) returns (ss: seq<Pool>, acts: seq<Action>)
    requires s.closed && s.adjuster == Gone && from <= |s.workers|
    requires forall i :: 0 <= i < from ==> s.workers[i].phase == Exited
    requires forall i :: from <= i < |s.workers| ==> s.workers[i].phase != NotLaunched
    ensures StopsFrom(c, s, ss, acts)
    decreases |s.workers| - from, |s.queue|, if from < |s.workers| then WorkerRank(s.workers[from].phase) else 0
  {
    if from == |s.workers| {
      ss, acts := [s], [];
    } else if s.workers[from].phase == Exited {
      ss, acts := WorkersLeave(c, s, from + 1);
    } else {
      var act := WorkerOut(s.workers[from], s.queue);
      var s' := Step(c, s, ByWorker(from, act)).value;
      ss, acts := WorkersLeave(c, s', from);
      ss, acts := Before(c, s, ByWorker(from, act), ss, acts);
    }
  }

  /** Wherever the pool stands when the stop channel closes, `Stop` can return. */
  lemma StopCanReturn(c: Config, ss: seq<Pool>, acts: seq<Action>) returns (ss': seq<Pool>, acts': seq<Action>)
    requires Run(c, ss, acts) && c.minWorkers <= c.maxWorkers && ss[|acts|].closed
    ensures StopsFrom(c, ss[|acts|], ss', acts')
  {
    RunKeepsScaled(c, ss, acts);
    ss', acts' := AdjusterLeaves(c, ss[|acts|]);
  }

  /** From `s` on the workers alone get to an empty queue with nothing in hand. */
  ghost predicate WorksOffFrom(c: Config, s: Pool, ss: seq<Pool>, acts: seq<Action>) {
    && Path(c, ss, acts) && ss[0] == s && (forall i :: 0 <= i < |acts| ==> acts[i].ByWorker?)
    && ss[|acts|].queue == []
    && forall i :: 0 <= i < |ss[|acts|].workers| ==> !ss[|acts|].workers[i].phase.Running?
  }

  lemma BeforeWork(c: Config, s: Pool, i: nat, act: WorkerAction, ss: seq<Pool>, acts: seq<Action>)
      returns (ss': seq<Pool>, acts': seq<Action>)
    requires ss != [] && WorksOffFrom(c, ss[0], ss, acts) && Step(c, s, ByWorker(i, act)) == Some(ss[0])
    ensures WorksOffFrom(c, s, ss', acts') && ss'[|acts'|] == ss[|acts|]
  {
    ss', acts' := [s] + ss, [ByWorker(i, act)] + acts;
  }

  /** Workers before `from` are through with their tasks. */
  lemma {:induction false} TasksFinish(c: Config, s: Pool, from: nat) returns (ss: seq<Pool>, acts: seq<Action>)
    requires s.queue == [] && from <= |s.workers|
    requires forall i :: 0 <= i < from ==> !s.workers[i].phase.Running?
    ensures WorksOffFrom(c, s, ss, acts) && ss[|acts|].accepted == s.accepted
    decreases |s.workers| - from
  {
    if from == |s.workers| {
      ss, acts := [s], [];
    } else if !s.workers[from].phase.Running? {
      ss, acts := TasksFinish(c, s, from + 1);
    } else {
      var s' := Step(c, s, ByWorker(from, Finish)).value;
      ss, acts := TasksFinish(c, s', from + 1);
      ss, acts := BeforeWork(c, s, from, Finish, ss, acts);
    }
  }

  lemma {:induction false} OneWorksOff(c: Config, s: Pool, w: nat) returns (ss: seq<Pool>, acts: seq<Action>)
    requires w < |s.workers| && (s.workers[w].phase == Waiting || s.workers[w].phase.Running?)
    requires s.workers[w].phase.Running? ==> !s.workers[w].phase.draining
    ensures WorksOffFrom(c, s, ss, acts) && ss[|acts|].accepted == s.accepted
    decreases |s.queue|, if s.workers[w].phase.Running? then 1 else 0
  {
    if s.workers[w].phase == Waiting && s.queue == [] {
      ss, acts := TasksFinish(c, s, 0);
    } else {
      var act := if s.workers[w].phase == Waiting then Take else Finish;
      var s' := Step(c, s, ByWorker(w, act)).value;
      ss, acts := OneWorksOff(c, s', w);
      ss, acts := BeforeWork(c, s, w, act, ss, acts);
    }
  }

  /** As long as the pool is not stopped and one launched worker is left uncancelled, the workers can by themselves
      bring every accepted task to its end. */
  lemma TasksCanAllFinish(c: Config, ss: seq<Pool>, acts: seq<Action>, w: nat)
      returns (ss': seq<Pool>, acts': seq<Action>)
    requires Run(c, ss, acts) && c.minWorkers <= c.maxWorkers && !ss[|acts|].closed
    requires w < |ss[|acts|].workers| && !ss[|acts|].workers[w].cancelled
    requires ss[|acts|].workers[w].phase != NotLaunched
    ensures WorksOffFrom(c, ss[|acts|], ss', acts')
    ensures multiset(ss'[|acts'|].finished) == multiset(ss[|acts|].accepted)
  {
    var s := ss[|acts|];
    RunKeepsScaled(c, ss, acts);
    assert Orderly(s.workers[w], s.closed) by { assert s.workers[w] in s.workers; }
    ss', acts' := OneWorksOff(c, s, w);
    Joined(c, ss, acts, ss', acts');
    var end := ss'[|acts'|];
    RunConserves(c, ss[..|acts|] + ss', acts + acts');
    forall t ensures multiset(end.finished)[t] == multiset(s.accepted)[t] {
      InHandNone(end.workers, t);
      assert Accounted(end, t);
    }
  }

  // ----- an ordinary pool with one long task

  /** One to two workers, scaling at 75 and 25 percent, thirty seconds apart. */
  const ORDINARY := Config(1, 2, 75, 25, 30)

  lemma Extend(ss: seq<Pool>, acts: seq<Action>, a: Action) returns (ss': seq<Pool>, acts': seq<Action>)
    requires Run(ORDINARY, ss, acts) && Step(ORDINARY, ss[|acts|], a).Some?
    ensures Run(ORDINARY, ss', acts') && Step(ORDINARY, ss[|acts|], a) == Some(ss'[|acts'|])
  {
    ss', acts' := ss + [Step(ORDINARY, ss[|acts|], a).value], acts + [a];
  }

  /** A pool with its idle or busy workers, as the run below meets it. */
  function At(queue: seq<Task>, accepted: seq<Task>, taken: seq<Task>, finished: seq<Task>, workers: seq<Worker>,
              cancels: seq<nat>, lastScaled: int, adjuster: Adjuster): Pool
  {
    Pool(queue, accepted, taken, finished, workers, |workers|, cancels, lastScaled, adjuster, false, false)
  }

  const FREE := Worker(false, Waiting)
  const LONG := Running(0, false)

  lemma Loaded() returns (ss: seq<Pool>, acts: seq<Action>)
    ensures Run(ORDINARY, ss, acts)
    ensures ss[|acts|] == At([0, 1, 2, 3, 4, 5], [0, 1, 2, 3, 4, 5], [], [], [FREE], [0], 0, Idle)
  {
    ss, acts := [Start(ORDINARY)], [];
    ss, acts := Extend(ss, acts, Submit(0));
    ss, acts := Extend(ss, acts, Submit(1));
    ss, acts := Extend(ss, acts, Submit(2));
    ss, acts := Extend(ss, acts, Submit(3));
    ss, acts := Extend(ss, acts, Submit(4));
    ss, acts := Extend(ss, acts, Submit(5));
  }

  lemma ScaledUp() returns (ss: seq<Pool>, acts: seq<Action>)
    ensures Run(ORDINARY, ss, acts)
    ensures ss[|acts|] == At([0, 1, 2, 3, 4, 5], [0, 1, 2, 3, 4, 5], [], [], [FREE, FREE], [0, 1], 30, Idle)
  {
    ss, acts := Loaded();
    ss, acts := Extend(ss, acts, ByAdjuster(CheckRunning));
    ss, acts := Extend(ss, acts, ByAdjuster(SampleLoad));
    ss, acts := Extend(ss, acts, ByAdjuster(SampleWorkers));
    ss, acts := Extend(ss, acts, ByAdjuster(Decide(30)));
    ss, acts := Extend(ss, acts, ByAdjuster(CheckStopped));
    ss, acts := Extend(ss, acts, ByAdjuster(CountWorker));
    ss, acts := Extend(ss, acts, ByAdjuster(RegisterCancel));
    ss, acts := Extend(ss, acts, ByAdjuster(Launch));
  }

  lemma WorkedOff() returns (ss: seq<Pool>, acts: seq<Action>)
    ensures Run(ORDINARY, ss, acts)
    ensures ss[|acts|] == At([4, 5], [0, 1, 2, 3, 4, 5], [0, 1, 2, 3], [1, 2, 3],
                             [FREE, Worker(false, LONG)], [0, 1], 30, Idle)
  {
    ss, acts := ScaledUp();
    ss, acts := Extend(ss, acts, ByWorker(1, Take));
    ss, acts := Extend(ss, acts, ByWorker(0, Take));
    ss, acts := Extend(ss, acts, ByWorker(0, Finish));
    ss, acts := Extend(ss, acts, ByWorker(0, Take));
    ss, acts := Extend(ss, acts, ByWorker(0, Finish));
    ss, acts := Extend(ss, acts, ByWorker(0, Take));
    ss, acts := Extend(ss, acts, ByWorker(0, Finish));
  }

  /** The worker with the long task is cancelled. */
  lemma OneCancelled() returns (ss: seq<Pool>, acts: seq<Action>)
    ensures Run(ORDINARY, ss, acts)
    ensures ss[|acts|] == At([4, 5], [0, 1, 2, 3, 4, 5], [0, 1, 2, 3], [1, 2, 3],
                             [FREE, Worker(true, LONG)], [0], 60, Idle)
  {
    ss, acts := WorkedOff();
    ss, acts := Extend(ss, acts, ByAdjuster(CheckRunning));
    ss, acts := Extend(ss, acts, ByAdjuster(SampleLoad));
    ss, acts := Extend(ss, acts, ByAdjuster(SampleWorkers));
    ss, acts := Extend(ss, acts, ByAdjuster(Decide(60)));
    ss, acts := Extend(ss, acts, ByAdjuster(CancelOne));
  }

  /** The next adjustment counts it once more. */
  lemma CountedTwice() returns (ss: seq<Pool>, acts: seq<Action>)
    ensures Run(ORDINARY, ss, acts)
    ensures ss[|acts|] == At([4, 5], [0, 1, 2, 3, 4, 5], [0, 1, 2, 3], [1, 2, 3],
                             [FREE, Worker(true, LONG)], [0], 90, Cancelling)
  {
    ss, acts := OneCancelled();
    ss, acts := Extend(ss, acts, ByAdjuster(CheckRunning));
    ss, acts := Extend(ss, acts, ByAdjuster(SampleLoad));
    ss, acts := Extend(ss, acts, ByAdjuster(SampleWorkers));
    ss, acts := Extend(ss, acts, ByAdjuster(Decide(90)));
  }

  /** Sampling while the worker cancelled before is still busy really loses the minimum. */
  lemma BusySamplesLoseMinimum()
    ensures exists ss: seq<Pool>, acts: seq<Action> ::
              Run(ORDINARY, ss, acts) && |ss[|acts|].cancels| < ORDINARY.minWorkers && !ss[|acts|].stopped
  {
    var ss, acts := CountedTwice();
    ss, acts := Extend(ss, acts, ByAdjuster(CancelOne));
  }

  /** An uncancelled worker at the call of `Stop` is not enough: the adjustment under way may cancel it, and
      `Stop` returns with tasks in the queue. The adjustment may have decided to do so before the call, ... */
  lemma StopRacesScaleDown()
    ensures exists ss: seq<Pool>, acts: seq<Action>, ss': seq<Pool>, acts': seq<Action> ::
              && Run(ORDINARY, ss, acts) && ss[|acts|].stopped && !ss[|acts|].closed && |ss[|acts|].cancels| == 1
              && StopsFrom(ORDINARY, ss[|acts|], ss', acts') && ss'[|acts'|].queue != []
  {
    var ss, acts := CountedTwice();
    ss, acts := Extend(ss, acts, SetStopped);
    RunKeepsScaled(ORDINARY, ss, acts);
    var ss', acts' := DoomedLosesTasks(ORDINARY, ss[|acts|]);
  }

  /** ... or it may only have found the pool not stopped, and not have sampled anything yet. */
  lemma StopRacesSample()
    ensures exists ss: seq<Pool>, acts: seq<Action>, ss': seq<Pool>, acts': seq<Action> ::
              && Run(ORDINARY, ss, acts) && ss[|acts|].stopped && !ss[|acts|].closed && |ss[|acts|].cancels| == 1
              && ss[|acts|].adjuster == Checked
              && StopsFrom(ORDINARY, ss[|acts|], ss', acts') && ss'[|acts'|].queue != []
  {
    var ss, acts := OneCancelled();
    ss, acts := Extend(ss, acts, ByAdjuster(CheckRunning));
    ss, acts := Extend(ss, acts, SetStopped);
    RunKeepsScaled(ORDINARY, ss, acts);
    var ss', acts' := DoomedLosesTasks(ORDINARY, ss[|acts|]);
  }
}
