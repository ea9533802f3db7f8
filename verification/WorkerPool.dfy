/** The scaling worker pool as a state machine: every action below is one atomic step of some goroutine,
    and a run interleaves them freely. */
module WorkerPool {
  import opened Options

  /** The configuration a pool keeps for its whole life. */
  datatype Config = Config(minWorkers: nat, maxWorkers: nat, scaleUpPct: int, scaleDownPct: int, cooldown: int)

  type Task = nat

  // `Leaving` has left the select loop but not yet run its deferred counter update.
  datatype Phase = NotLaunched | Waiting | Running(task: Task, draining: bool) | Draining | Leaving | Exited

  datatype Worker = Worker(cancelled: bool, phase: Phase)

  /** Where the single adjusting goroutine stands; the last four are `spawnWorker`. */
  datatype Adjuster =
    | Idle
    | Checked                 // past the test of `stopped`
    | LoadSampled(pct: int)
    | WorkersSampled(pct: int, current: int)
    | Cancelling
    | Spawning
    | Counting
    | Registering
    | Launching
    | Gone

  datatype Pool = Pool(
    queue: seq<Task>, accepted: seq<Task>, taken: seq<Task>, finished: seq<Task>,
    workers: seq<Worker>, counter: int, cancels: seq<nat>, lastScaled: int,
    adjuster: Adjuster, stopped: bool, closed: bool)

  datatype WorkerAction =
    | Take
    | Finish
    | SeeCancel
    | SeeStop
    | FindEmpty    // draining, and nothing left
    | Exit

  datatype AdjusterAction =
    | CheckRunning
    | SampleLoad
    | SampleWorkers
    | Decide(now: int)
    | CancelOne
    | CheckStopped
    | CountWorker
    | RegisterCancel
    | Launch
    | Leave

  datatype Action =
    | Submit(task: Task)    // the send branch of the select
    | Drop(task: Task)      // its stop branch
    | ByWorker(worker: nat, act: WorkerAction)
    | ByAdjuster(adjust: AdjusterAction)
    | SetStopped
    | CloseStop

  function Capacity(c: Config): nat {
    c.maxWorkers * 4
  }

  function Start(c: Config): Pool {
    Pool([], [], [], [], seq(c.minWorkers, _ => Worker(false, Waiting)), c.minWorkers, seq(c.minWorkers, i => i), 0,
         Idle, false, false)
  }

  /** What one step of a worker does to its phase, the queue and the finished tasks. */
  datatype Move = Move(phase: Phase, queue: seq<Task>, taken: seq<Task>, done: seq<Task>)

  function WorkerMove(w: Worker, queue: seq<Task>, closed: bool, a: WorkerAction): Option<Move> {
    match a
    case Take =>
      if queue != [] && (w.phase == Waiting || w.phase == Draining)
      then Some(Move(Running(queue[0], w.phase == Draining), queue[1..], [queue[0]], [])) else None
    case Finish =>
      if w.phase.Running?
      then Some(Move(if w.phase.draining then Draining else Waiting, queue, [], [w.phase.task])) else None
    case SeeCancel => if w.cancelled && w.phase == Waiting then Some(Move(Leaving, queue, [], [])) else None
    case SeeStop => if closed && w.phase == Waiting then Some(Move(Draining, queue, [], [])) else None
    case FindEmpty => if w.phase == Draining && queue == [] then Some(Move(Leaving, queue, [], [])) else None
    case Exit => if w.phase == Leaving then Some(Move(Exited, queue, [], [])) else None
  }

  predicate WouldScaleUp(c: Config, pct: int, current: int) {
    pct >= c.scaleUpPct && current < c.maxWorkers
  }

  predicate WouldScaleDown(c: Config, pct: int, current: int) {
    !WouldScaleUp(c, pct, current) && pct <= c.scaleDownPct && current > c.minWorkers
  }

  function AdjusterStep(c: Config, s: Pool, a: AdjusterAction): Option<Pool> {
    match a
    case CheckRunning =>
      if s.adjuster == Idle && !s.stopped && Capacity(c) > 0 then Some(s.(adjuster := Checked)) else None
    case SampleLoad =>
      if s.adjuster == Checked && Capacity(c) > 0
      then Some(s.(adjuster := LoadSampled(|s.queue| * 100 / Capacity(c)))) else None
    case SampleWorkers =>
      if s.adjuster.LoadSampled? then Some(s.(adjuster := WorkersSampled(s.adjuster.pct, s.counter))) else None
    case Decide(now) =>
      if !s.adjuster.WorkersSampled? then None
      else
        var WorkersSampled(pct, current) := s.adjuster;
        if now - s.lastScaled < c.cooldown then Some(s.(adjuster := Idle))
        else if WouldScaleUp(c, pct, current) then Some(s.(adjuster := Spawning, lastScaled := now))
        else if WouldScaleDown(c, pct, current) then Some(s.(adjuster := Cancelling, lastScaled := now))
        else Some(s.(adjuster := Idle))
    case CancelOne => if s.adjuster == Cancelling then Some(CancelTop(s)) else None
    case CheckStopped =>
      if s.adjuster == Spawning then Some(s.(adjuster := if s.stopped then Idle else Counting)) else None
    case CountWorker =>
      if s.adjuster == Counting then Some(s.(adjuster := Registering, counter := s.counter + 1)) else None
    case RegisterCancel =>
      if s.adjuster == Registering
      then Some(s.(adjuster := Launching, cancels := s.cancels + [|s.workers|],
                   workers := s.workers + [Worker(false, NotLaunched)])) else None
    case Launch =>
      if s.adjuster == Launching && s.workers != [] then
        var n := |s.workers| - 1;
        Some(s.(adjuster := Idle, workers := s.workers[n := s.workers[n].(phase := Waiting)]))
      else None
    case Leave => if s.adjuster == Idle && s.closed then Some(s.(adjuster := Gone)) else None
  }

  /** Calls and drops the newest cancel function, if there is one. */
  function CancelTop(s: Pool): Pool {
    if s.cancels == [] then s.(adjuster := Idle)
    else
      var n := |s.cancels| - 1;
      var top := s.cancels[n];
      s.(adjuster := Idle, cancels := s.cancels[..n],
         workers := if top < |s.workers| then s.workers[top := s.workers[top].(cancelled := true)] else s.workers)
  }

  /** The state after one step, or `None` where the step is not possible. */
  function Step(c: Config, s: Pool, a: Action): Option<Pool> {
    match a
    case Submit(task) =>
      if |s.queue| < Capacity(c)
      then Some(s.(queue := s.queue + [task], accepted := s.accepted + [task])) else None
    case Drop(task) => if s.closed then Some(s) else None
    case ByWorker(i, act) => if i < |s.workers| then WorkerStep(s, i, act) else None
    case ByAdjuster(act) => AdjusterStep(c, s, act)
    case SetStopped => if !s.stopped then Some(s.(stopped := true)) else None
    case CloseStop => if s.stopped && !s.closed then Some(s.(closed := true)) else None
  }

  function WorkerStep(s: Pool, i: nat, act: WorkerAction): Option<Pool>
    requires i < |s.workers|
  {
    match WorkerMove(s.workers[i], s.queue, s.closed, act)
    case None => None
    case Some(m) =>
      Some(s.(queue := m.queue, taken := s.taken + m.taken, finished := s.finished + m.done,
              workers := s.workers[i := s.workers[i].(phase := m.phase)],
              counter := s.counter - if m.phase == Exited then 1 else 0))
  }

  /** `wg.Wait` in `Stop` is over: adjuster and workers are gone. */
  predicate StopReturned(s: Pool) {
    s.closed && s.adjuster == Gone && forall i :: 0 <= i < |s.workers| ==> s.workers[i].phase == Exited
  }

  /** A finite interleaving of steps. */
  ghost predicate Path(c: Config, ss: seq<Pool>, acts: seq<Action>) {
    |ss| == |acts| + 1 && forall i :: 0 <= i < |acts| ==> Step(c, ss[i], acts[i]) == Some(ss[i + 1])
  }

  /** ... from the freshly made pool. */
  ghost predicate Run(c: Config, ss: seq<Pool>, acts: seq<Action>) {
    Path(c, ss, acts) && ss[0] == Start(c)
  }

  // ----- tasks are conserved

  /** How many workers hold task `t`. */
  function InHand(ws: seq<Worker>, t: Task): nat {
    if ws == [] then 0 else InHand(ws[..|ws| - 1], t) + HeldBit(ws[|ws| - 1].phase, t)
  }

  function HeldBit(p: Phase, t: Task): nat {
    if p.Running? && p.task == t then 1 else 0
  }

  lemma {:induction false} InHandUpdate(ws: seq<Worker>, i: nat, w: Worker, t: Task)
    requires i < |ws|
    ensures InHand(ws[i := w], t) + HeldBit(ws[i].phase, t) == InHand(ws, t) + HeldBit(w.phase, t)
  {
    var n := |ws| - 1;
    if i < n {
      InHandUpdate(ws[..n], i, w, t);
      assert ws[i := w][..n] == ws[..n][i := w];
    } else {
      assert ws[i := w][..n] == ws[..n];
    }
  }

  lemma InHandAppend(ws: seq<Worker>, w: Worker, t: Task)
    ensures InHand(ws + [w], t) == InHand(ws, t) + HeldBit(w.phase, t)
  {
    assert (ws + [w])[..|ws|] == ws;
  }

  lemma {:induction false} InHandNone(ws: seq<Worker>, t: Task)
    requires forall i :: 0 <= i < |ws| ==> !ws[i].phase.Running?
    ensures InHand(ws, t) == 0
  {
    if ws != [] { InHandNone(ws[..|ws| - 1], t); }
  }

  /** Task `t` is queued, in a worker's hands or finished exactly as often as it was accepted. */
  ghost predicate Accounted(s: Pool, t: Task) {
    multiset(s.accepted)[t] == multiset(s.queue)[t] + InHand(s.workers, t) + multiset(s.finished)[t]
  }

  /** The channel is first in, first out. */
  ghost predicate InOrder(s: Pool) {
    s.accepted == s.taken + s.queue
  }

  ghost predicate Conserved(c: Config, s: Pool) {
    |s.queue| <= Capacity(c) && InOrder(s) && forall t :: Accounted(s, t)
  }

  lemma MoveConserves(w: Worker, queue: seq<Task>, closed: bool, a: WorkerAction, m: Move, t: Task)
    requires WorkerMove(w, queue, closed, a) == Some(m)
    ensures multiset(queue)[t] + HeldBit(w.phase, t) == multiset(m.queue)[t] + HeldBit(m.phase, t) + multiset(m.done)[t]
    ensures |m.queue| <= |queue|
  {
    if a == Take { assert queue == [queue[0]] + queue[1..]; }
  }

  lemma WorkerStepConserves(s: Pool, i: nat, act: WorkerAction, s': Pool, t: Task)
    requires Accounted(s, t) && i < |s.workers| && WorkerStep(s, i, act) == Some(s')
    ensures Accounted(s', t) && |s'.queue| <= |s.queue|
  {
    var m := WorkerMove(s.workers[i], s.queue, s.closed, act).value;
    MoveConserves(s.workers[i], s.queue, s.closed, act, m, t);
    InHandUpdate(s.workers, i, s.workers[i].(phase := m.phase), t);
  }

  lemma AdjusterHolds(c: Config, s: Pool, act: AdjusterAction, s': Pool, t: Task)
    requires LaunchOrder(s.workers, s.adjuster) && AdjusterStep(c, s, act) == Some(s')
    ensures InHand(s'.workers, t) == InHand(s.workers, t)
  {
    match act
    case CancelOne =>
      if s'.workers != s.workers {
        var top := s.cancels[|s.cancels| - 1];
        InHandUpdate(s.workers, top, s.workers[top].(cancelled := true), t);
      }
    case RegisterCancel => InHandAppend(s.workers, Worker(false, NotLaunched), t);
    case Launch =>
      var n := |s.workers| - 1;
      InHandUpdate(s.workers, n, s.workers[n].(phase := Waiting), t);
    case _ =>
  }

  lemma AdjusterStepConserves(c: Config, s: Pool, act: AdjusterAction, s': Pool, t: Task)
    requires Accounted(s, t) && LaunchOrder(s.workers, s.adjuster) && AdjusterStep(c, s, act) == Some(s')
    ensures Accounted(s', t) && s'.queue == s.queue
  {
    AdjusterHolds(c, s, act, s', t);
    assert s'.queue == s.queue && s'.accepted == s.accepted && s'.finished == s.finished;
  }

  lemma AccountedStep(c: Config, s: Pool, a: Action, s': Pool, t: Task)
    requires Accounted(s, t) && LaunchOrder(s.workers, s.adjuster) && Step(c, s, a) == Some(s')
    ensures Accounted(s', t) && (a.Submit? || |s'.queue| <= |s.queue|)
  {
    match a
    case ByWorker(i, act) => WorkerStepConserves(s, i, act, s', t);
    case ByAdjuster(act) => AdjusterStepConserves(c, s, act, s', t);
    case _ =>
  }

  lemma InOrderStep(c: Config, s: Pool, a: Action, s': Pool)
    requires InOrder(s) && Step(c, s, a) == Some(s')
    ensures InOrder(s')
  {
    match a
    case ByWorker(i, act) =>
      if act == Take {
        assert s.taken + s.queue == s.taken + [s.queue[0]] + s.queue[1..];
      } else {
        assert s.taken + [] == s.taken;
      }
    case Submit(task) => assert s.taken + (s.queue + [task]) == (s.taken + s.queue) + [task];
    case _ =>
  }

  lemma ConservedStep(c: Config, s: Pool, a: Action, s': Pool)
    requires Conserved(c, s) && LaunchOrder(s.workers, s.adjuster) && Step(c, s, a) == Some(s')
    ensures Conserved(c, s')
  {
    AccountedStep(c, s, a, s', 0);
    InOrderStep(c, s, a, s');
    forall t ensures Accounted(s', t) { AccountedStep(c, s, a, s', t); }
  }

  // ----- the worker counter

  function Zombies(ws: seq<Worker>): nat {
    if ws == [] then 0 else Zombies(ws[..|ws| - 1]) + ZombieBit(ws[|ws| - 1])
  }

  /** Cancelled, but not yet subtracted from the counter. */
  function ZombieBit(w: Worker): nat {
    if w.cancelled && w.phase != Exited then 1 else 0
  }

  /** Workers the counter counts. */
  function Live(ws: seq<Worker>): nat {
    if ws == [] then 0 else Live(ws[..|ws| - 1]) + LiveBit(ws[|ws| - 1])
  }

  function LiveBit(w: Worker): nat {
    if w.phase != Exited then 1 else 0
  }

  lemma {:induction false} LiveUpdate(ws: seq<Worker>, i: nat, w: Worker)
    requires i < |ws|
    ensures Live(ws[i := w]) + LiveBit(ws[i]) == Live(ws) + LiveBit(w)
  {
    var n := |ws| - 1;
    if i < n {
      LiveUpdate(ws[..n], i, w);
      assert ws[i := w][..n] == ws[..n][i := w];
    } else {
      assert ws[i := w][..n] == ws[..n];
    }
  }

  lemma LiveAppend(ws: seq<Worker>, w: Worker)
    ensures Live(ws + [w]) == Live(ws) + LiveBit(w)
  {
    assert (ws + [w])[..|ws|] == ws;
  }

  lemma {:induction false} AllLive(ws: seq<Worker>)
    requires forall i :: 0 <= i < |ws| ==> ws[i].phase != Exited
    ensures Live(ws) == |ws|
  {
    if ws != [] { AllLive(ws[..|ws| - 1]); }
  }

  /** The outstanding cancel functions are those of the uncancelled workers, each once. */
  ghost predicate CancelsMatch(cancels: seq<nat>, ws: seq<Worker>) {
    && (forall j :: 0 <= j < |cancels| ==> cancels[j] < |ws| && !ws[cancels[j]].cancelled)
    && (forall j, k :: 0 <= j < k < |cancels| ==> cancels[j] < cancels[k])
    && (forall i :: 0 <= i < |ws| && !ws[i].cancelled ==> i in cancels)
  }

  /** Only the worker being spawned has not been launched. */
  ghost predicate LaunchOrder(ws: seq<Worker>, adjuster: Adjuster) {
    && (adjuster == Launching ==> ws != [] && ws[|ws| - 1] == Worker(false, NotLaunched))
    && (forall i :: 0 <= i < |ws| && ws[i].phase == NotLaunched ==> adjuster == Launching && i == |ws| - 1)
  }

  predicate Left(w: Worker) {
    w.phase == Leaving || w.phase == Exited
  }

  /** Before the stop channel closes nobody drains, and only cancelled workers leave. */
  predicate Orderly(w: Worker, closed: bool) {
    !closed ==> w.phase != Draining && !(w.phase.Running? && w.phase.draining) && (Left(w) ==> w.cancelled)
  }

  function Unregistered(s: Pool): nat {
    if s.adjuster == Registering then 1 else 0
  }

  /** Until the stop channel closes the counter is the outstanding cancel functions plus the zombies, plus a
      worker counted but not yet registered; after that it is at most that. */
  ghost predicate CounterExact(s: Pool) {
    && s.counter <= |s.cancels| + Zombies(s.workers) + Unregistered(s)
    && (!s.closed ==> s.counter == |s.cancels| + Zombies(s.workers) + Unregistered(s))
  }

  ghost predicate BelowMax(c: Config, s: Pool) {
    && s.counter <= c.maxWorkers
    && (s.adjuster.WorkersSampled? ==> s.counter <= s.adjuster.current)
    && (s.adjuster == Spawning || s.adjuster == Counting ==> s.counter < c.maxWorkers)
  }

  ghost predicate Scaled(c: Config, s: Pool) {
    && CancelsMatch(s.cancels, s.workers) && LaunchOrder(s.workers, s.adjuster)
    && (forall w :: w in s.workers ==> Orderly(w, s.closed))
    && s.counter == Live(s.workers) + Unregistered(s) && BelowMax(c, s)
    && (s.closed ==> s.stopped) && (s.adjuster == Gone ==> s.closed) && (s.adjuster == Checked ==> Capacity(c) > 0)
  }

  lemma LastCancel(cancels: seq<nat>, ws: seq<Worker>)
    requires CancelsMatch(cancels, ws) && ws != [] && !ws[|ws| - 1].cancelled
    ensures cancels != [] && cancels[|cancels| - 1] == |ws| - 1
    ensures CancelsMatch(cancels[..|cancels| - 1], ws[..|ws| - 1])
  {
    var n, m := |ws| - 1, |cancels| - 1;
    var j :| 0 <= j < |cancels| && cancels[j] == n;
    assert cancels[j] <= cancels[m];
    forall i | 0 <= i < n && !ws[..n][i].cancelled ensures i in cancels[..m] {
      var k :| 0 <= k < |cancels| && cancels[k] == i;
      assert cancels[..m][k] == i;
    }
  }

  /** Live workers are zombies or uncancelled, and the uncancelled ones are those with a cancel function. */
  lemma {:induction false} LiveSplit(cancels: seq<nat>, ws: seq<Worker>)
    requires CancelsMatch(cancels, ws)
    ensures Live(ws) <= |cancels| + Zombies(ws)
    ensures (forall w :: w in ws && w.phase == Exited ==> w.cancelled) ==> Live(ws) == |cancels| + Zombies(ws)
  {
    if ws == [] {
      assert cancels == [];
    } else {
      var n := |ws| - 1;
      if ws[n].cancelled {
        forall i | 0 <= i < n && !ws[..n][i].cancelled ensures i in cancels { assert !ws[i].cancelled; }
        LiveSplit(cancels, ws[..n]);
      } else {
        LastCancel(cancels, ws);
        LiveSplit(cancels[..|cancels| - 1], ws[..n]);
      }
      assert ws == ws[..n] + [ws[n]];
    }
  }

  lemma ScaledCounts(c: Config, s: Pool)
    requires Scaled(c, s)
    ensures CounterExact(s)
  {
    LiveSplit(s.cancels, s.workers);
    forall w | !s.closed && w in s.workers && w.phase == Exited ensures w.cancelled { assert Orderly(w, s.closed); }
  }

  lemma UpdateWorker(cancels: seq<nat>, ws: seq<Worker>, adjuster: Adjuster, closed: bool, i: nat, w: Worker)
    requires CancelsMatch(cancels, ws) && LaunchOrder(ws, adjuster) && forall w :: w in ws ==> Orderly(w, closed)
    requires i < |ws| && w.cancelled == ws[i].cancelled && Orderly(w, closed)
    requires w.phase != NotLaunched && ws[i].phase != NotLaunched
    ensures CancelsMatch(cancels, ws[i := w]) && LaunchOrder(ws[i := w], adjuster)
    ensures forall w' :: w' in ws[i := w] ==> Orderly(w', closed)
  {
    forall w' | w' in ws[i := w] ensures Orderly(w', closed) { assert w' == w || w' in ws; }
  }

  lemma MovePhases(w: Worker, queue: seq<Task>, closed: bool, a: WorkerAction, m: Move)
    requires WorkerMove(w, queue, closed, a) == Some(m)
    ensures w.phase != NotLaunched && m.phase != NotLaunched && w.phase != Exited
    ensures m.phase == Leaving ==> w.cancelled || (w.phase == Draining && queue == [])
    ensures m.phase == Exited ==> w.phase == Leaving
    ensures m.phase == Draining ==> closed || (w.phase.Running? && w.phase.draining)
    ensures m.phase.Running? && m.phase.draining ==> w.phase == Draining
    ensures queue == [] ==> m.queue == []
  {
  }

  lemma WorkerStepScaled(c: Config, s: Pool, i: nat, act: WorkerAction, s': Pool)
    requires Scaled(c, s) && i < |s.workers| && WorkerStep(s, i, act) == Some(s')
    ensures Scaled(c, s')
  {
    var m := WorkerMove(s.workers[i], s.queue, s.closed, act).value;
    var w := s.workers[i].(phase := m.phase);
    MovePhases(s.workers[i], s.queue, s.closed, act, m);
    assert Orderly(s.workers[i], s.closed);
    UpdateWorker(s.cancels, s.workers, s.adjuster, s.closed, i, w);
    LiveUpdate(s.workers, i, w);
  }

  lemma CancelWorker(cancels: seq<nat>, ws: seq<Worker>, closed: bool)
    requires CancelsMatch(cancels, ws) && cancels != [] && LaunchOrder(ws, Cancelling)
    requires forall w :: w in ws ==> Orderly(w, closed)
    ensures var n := |cancels| - 1;
            var ws' := ws[cancels[n] := ws[cancels[n]].(cancelled := true)];
            && CancelsMatch(cancels[..n], ws') && LaunchOrder(ws', Idle)
            && (forall w :: w in ws' ==> Orderly(w, closed))
            && Live(ws') == Live(ws)
  {
    var n := |cancels| - 1;
    var top := cancels[n];
    var ws' := ws[top := ws[top].(cancelled := true)];
    LiveUpdate(ws, top, ws'[top]);
    assert Orderly(ws[top], closed);
    forall i | 0 <= i < |ws'| && !ws'[i].cancelled ensures i in cancels[..n] {
      var j :| 0 <= j < |cancels| && cancels[j] == i;
      assert cancels[..n][j] == i;
    }
    forall w | w in ws' ensures Orderly(w, closed) {
      assert Orderly(ws[top], closed);
      assert w == ws'[top] || w in ws;
    }
  }

  lemma CancelTopScaled(c: Config, s: Pool)
    requires Scaled(c, s) && s.adjuster == Cancelling
    ensures Scaled(c, CancelTop(s))
    ensures |CancelTop(s).cancels| == if s.cancels == [] then 0 else |s.cancels| - 1
  {
    if s.cancels != [] {
      CancelTopIs(s);
      CancelScaled(c, s, CancelTop(s));
    } else {
      assert CancelTop(s) == s.(adjuster := Idle);
    }
  }

  lemma CancelScaled(c: Config, s: Pool, s': Pool)
    requires Scaled(c, s) && s.adjuster == Cancelling && s.cancels != []
    requires var n := |s.cancels| - 1;
             s' == s.(adjuster := Idle, cancels := s.cancels[..n],
                      workers := s.workers[s.cancels[n] := s.workers[s.cancels[n]].(cancelled := true)])
    ensures Scaled(c, s')
  {
    CancelWorker(s.cancels, s.workers, s.closed);
  }

  lemma CancelTopIs(s: Pool)
    requires CancelsMatch(s.cancels, s.workers) && s.cancels != []
    ensures var n := |s.cancels| - 1;
            CancelTop(s) ==
            s.(adjuster := Idle, cancels := s.cancels[..n],
               workers := s.workers[s.cancels[n] := s.workers[s.cancels[n]].(cancelled := true)])
  {
  }

  lemma RegisterWorker(cancels: seq<nat>, ws: seq<Worker>, closed: bool)
    requires CancelsMatch(cancels, ws) && forall w :: w in ws ==> Orderly(w, closed)
    ensures var ws' := ws + [Worker(false, NotLaunched)];
            CancelsMatch(cancels + [|ws|], ws') && forall w :: w in ws' ==> Orderly(w, closed)
  {
    var ws', cancels' := ws + [Worker(false, NotLaunched)], cancels + [|ws|];
    forall i | 0 <= i < |ws'| && !ws'[i].cancelled ensures i in cancels' {
      if i < |ws| {
        var j :| 0 <= j < |cancels| && cancels[j] == i;
        assert cancels'[j] == i;
      } else {
        assert cancels'[|cancels|] == i;
      }
    }
  }

  lemma RegisterScaled(c: Config, s: Pool, s': Pool)
    requires Scaled(c, s) && AdjusterStep(c, s, RegisterCancel) == Some(s')
    ensures Scaled(c, s')
  {
    RegisterWorker(s.cancels, s.workers, s.closed);
    LiveAppend(s.workers, Worker(false, NotLaunched));
  }

  lemma LaunchWorker(cancels: seq<nat>, ws: seq<Worker>, closed: bool)
    requires CancelsMatch(cancels, ws) && LaunchOrder(ws, Launching) && forall w :: w in ws ==> Orderly(w, closed)
    ensures var ws' := ws[|ws| - 1 := Worker(false, Waiting)];
            CancelsMatch(cancels, ws') && LaunchOrder(ws', Idle) && forall w :: w in ws' ==> Orderly(w, closed)
  {
    var ws' := ws[|ws| - 1 := Worker(false, Waiting)];
    forall w | w in ws' ensures Orderly(w, closed) { assert w == Worker(false, Waiting) || w in ws; }
  }

  lemma LaunchScaled(c: Config, s: Pool, s': Pool)
    requires Scaled(c, s) && AdjusterStep(c, s, Launch) == Some(s')
    ensures Scaled(c, s')
  {
    LaunchWorker(s.cancels, s.workers, s.closed);
    assert s'.workers == s.workers[|s.workers| - 1 := Worker(false, Waiting)];
    LiveUpdate(s.workers, |s.workers| - 1, Worker(false, Waiting));
  }

  lemma AdjusterStepScaled(c: Config, s: Pool, act: AdjusterAction, s': Pool)
    requires Scaled(c, s) && AdjusterStep(c, s, act) == Some(s')
    ensures Scaled(c, s')
  {
    match act
    case CancelOne => CancelTopScaled(c, s);
    case RegisterCancel => RegisterScaled(c, s, s');
    case Launch => LaunchScaled(c, s, s');
    case _ => assert s'.workers == s.workers && s'.cancels == s.cancels;
  }

  lemma ScaledStep(c: Config, s: Pool, a: Action, s': Pool)
    requires Scaled(c, s) && Step(c, s, a) == Some(s')
    ensures Scaled(c, s')
  {
    match a
    case ByWorker(i, act) => WorkerStepScaled(c, s, i, act, s');
    case ByAdjuster(act) => AdjusterStepScaled(c, s, act, s');
    case _ => assert s'.workers == s.workers && s'.cancels == s.cancels;
  }

  lemma {:induction false} RunKeepsScaled(c: Config, ss: seq<Pool>, acts: seq<Action>)
    requires Run(c, ss, acts) && c.minWorkers <= c.maxWorkers
    ensures Scaled(c, ss[|acts|])
  {
    if acts == [] {
      AllLive(ss[0].workers);
      forall i | 0 <= i < c.minWorkers ensures i in ss[0].cancels { assert ss[0].cancels[i] == i; }
      assert forall w :: w in ss[0].workers ==> w == Worker(false, Waiting);
    } else {
      var n := |acts| - 1;
      RunKeepsScaled(c, ss[..n + 1], acts[..n]);
      ScaledStep(c, ss[n], acts[n], ss[n + 1]);
    }
  }

  lemma ScaledAt(c: Config, ss: seq<Pool>, acts: seq<Action>, n: nat)
    requires Run(c, ss, acts) && c.minWorkers <= c.maxWorkers && n <= |acts|
    ensures Scaled(c, ss[n]) && CounterExact(ss[n])
  {
    RunKeepsScaled(c, ss[..n + 1], acts[..n]);
    ScaledCounts(c, ss[n]);
  }

  /** In every run the counter never passes the maximum and counts the workers that have not exited; until the
      stop channel closes it is exactly the outstanding cancel functions plus the cancelled workers that have
      not exited (plus one in mid-spawn). */
  lemma CounterIsExactAndBounded(c: Config, ss: seq<Pool>, acts: seq<Action>)
    requires Run(c, ss, acts) && c.minWorkers <= c.maxWorkers
    ensures Scaled(c, ss[|acts|]) && CounterExact(ss[|acts|])
  {
    ScaledAt(c, ss, acts, |acts|);
  }

  /** In every run accepted tasks are conserved: each is queued, in hand or finished exactly as often as it
      was accepted, they are taken up in the order of acceptance, at most four times the maximum are queued, and
      exactly then a submission has to wait; it is dropped only after the stop. */
  lemma TasksAreConserved(c: Config, ss: seq<Pool>, acts: seq<Action>)
    requires Run(c, ss, acts) && c.minWorkers <= c.maxWorkers
    ensures var s := ss[|acts|];
            && (forall t ::
                 multiset(s.accepted)[t] == multiset(s.queue)[t] + InHand(s.workers, t) + multiset(s.finished)[t])
            && s.accepted == s.taken + s.queue && |s.queue| <= 4 * c.maxWorkers
            && forall t ::
                 (Step(c, s, Submit(t)) == None <==> |s.queue| == 4 * c.maxWorkers)
                 && (Step(c, s, Drop(t)).Some? <==> s.closed)
  {
    RunConserves(c, ss, acts);
    var s := ss[|acts|];
    forall t ensures
      multiset(s.accepted)[t] == multiset(s.queue)[t] + InHand(s.workers, t) + multiset(s.finished)[t]
    {
      assert Accounted(s, t);
    }
  }

  lemma {:induction false} RunConserves(c: Config, ss: seq<Pool>, acts: seq<Action>)
    requires Run(c, ss, acts) && c.minWorkers <= c.maxWorkers
    ensures Conserved(c, ss[|acts|])
  {
    if acts == [] {
      forall t { InHandNone(ss[0].workers, t); }
    } else {
      var n := |acts| - 1;
      RunConserves(c, ss[..n + 1], acts[..n]);
      RunKeepsScaled(c, ss[..n + 1], acts[..n]);
      ConservedStep(c, ss[n], acts[n], ss[n + 1]);
    }
  }

  /** In every run the two steps of a stop can each be taken once, one after the other, whatever else goes on. */
  lemma {:induction false} StopSteps(c: Config, ss: seq<Pool>, acts: seq<Action>)
    requires Run(c, ss, acts)
    ensures ss[|acts|].stopped == (SetStopped in acts) && ss[|acts|].closed == (CloseStop in acts)
    ensures Step(c, ss[|acts|], SetStopped).Some? <==> SetStopped !in acts
    ensures Step(c, ss[|acts|], CloseStop).Some? <==> SetStopped in acts && CloseStop !in acts
  {
    if acts != [] {
      var n := |acts| - 1;
      StopSteps(c, ss[..n + 1], acts[..n]);
      assert acts == acts[..n] + [acts[n]];
      assert Step(c, ss[n], acts[n]) == Some(ss[n + 1]);
    }
  }

  /** A waiting worker may take the oldest task exactly when there is one, leave exactly when it is cancelled, and
      begin to drain exactly when the stop channel is closed; of several it does any. */
  lemma WaitingWorkerMay(c: Config, ss: seq<Pool>, acts: seq<Action>, i: nat)
    requires Run(c, ss, acts) && i < |ss[|acts|].workers| && ss[|acts|].workers[i].phase == Waiting
    ensures var s := ss[|acts|];
            && (Step(c, s, ByWorker(i, Take)).Some? <==> s.queue != [])
            && (Step(c, s, ByWorker(i, SeeCancel)).Some? <==> s.workers[i].cancelled)
            && (Step(c, s, ByWorker(i, SeeStop)).Some? <==> CloseStop in acts)
  {
    StopSteps(c, ss, acts);
  }

  predicate Drains(w: Worker) {
    w.phase == Draining || (w.phase.Running? && w.phase.draining)
  }

  /** In every run a worker that has begun to drain, cancelled or not, leaves only on finding the queue empty. */
  lemma {:induction false} DrainerLeavesEmpty(c: Config, ss: seq<Pool>, acts: seq<Action>, i: nat, j: nat)
      returns (k: nat)
    requires Run(c, ss, acts) && c.minWorkers <= c.maxWorkers
    requires j <= |acts| && i < |ss[j].workers| && Drains(ss[j].workers[i])
    requires i < |ss[|acts|].workers| && !Drains(ss[|acts|].workers[i])
    ensures j <= k < |acts| && acts[k] == ByWorker(i, FindEmpty) && ss[k].queue == []
  {
    var n := |acts| - 1;
    ScaledAt(c, ss, acts, n);
    assert Step(c, ss[n], acts[n]) == Some(ss[n + 1]);
    if i < |ss[n].workers| && Drains(ss[n].workers[i]) {
      k := n;
      if acts[n] != ByWorker(i, FindEmpty) { DrainsOn(c, ss[n], acts[n], ss[n + 1], i); }
    } else {
      WorkersStay(c, ss, acts, i, j, n);
      k := DrainerLeavesEmpty(c, ss[..n + 1], acts[..n], i, j);
    }
  }

  /** Workers are only ever added. */
  lemma {:induction false} WorkersStay(c: Config, ss: seq<Pool>, acts: seq<Action>, i: nat, j: nat, n: nat)
    requires Run(c, ss, acts) && j <= n <= |acts| && i < |ss[j].workers|
    ensures i < |ss[n].workers|
  {
    if j < n {
      WorkersStay(c, ss, acts, i, j, n - 1);
      assert Step(c, ss[n - 1], acts[n - 1]) == Some(ss[n]);
    }
  }

  lemma DrainsOn(c: Config, s: Pool, a: Action, s': Pool, i: nat)
    requires LaunchOrder(s.workers, s.adjuster)
    requires Step(c, s, a) == Some(s') && a != ByWorker(i, FindEmpty) && i < |s.workers| && Drains(s.workers[i])
    ensures i < |s'.workers| && Drains(s'.workers[i])
  {
    match a
    case ByWorker(j, act) => assert j != i ==> s'.workers[i] == s.workers[i];
    case ByAdjuster(act) =>
    case _ =>
  }

  // ----- scaling decisions

  /** Step `i` of the run decides to scale up or down. */
  ghost predicate Scales(ss: seq<Pool>, acts: seq<Action>, i: nat)
    requires |ss| == |acts| + 1
  {
    && i < |acts| && acts[i].ByAdjuster? && acts[i].adjust.Decide?
    && (ss[i + 1].adjuster == Spawning || ss[i + 1].adjuster == Cancelling)
  }

  /** `pct` is the load some earlier step sampled. */
  ghost predicate SampledBefore(c: Config, ss: seq<Pool>, acts: seq<Action>, n: nat, pct: int)
    requires |ss| == |acts| + 1 && n <= |acts|
  {
    Capacity(c) > 0 &&
    exists i :: 0 <= i < n && acts[i] == ByAdjuster(SampleLoad) && pct == |ss[i].queue| * 100 / Capacity(c)
  }

  ghost predicate Paced(c: Config, ss: seq<Pool>, acts: seq<Action>, n: nat)
    requires |ss| == |acts| + 1 && n <= |acts|
  {
    && (forall i: nat :: i < n && Scales(ss, acts, i) ==> acts[i].adjust.now <= ss[n].lastScaled)
    && (ss[n].adjuster.LoadSampled? || ss[n].adjuster.WorkersSampled? ==>
          SampledBefore(c, ss, acts, n, ss[n].adjuster.pct))
  }

  lemma PacedStep(c: Config, ss: seq<Pool>, acts: seq<Action>, n: nat)
    requires Run(c, ss, acts) && n < |acts| && c.cooldown >= 0 && Paced(c, ss, acts, n)
    ensures Paced(c, ss, acts, n + 1)
    ensures Scales(ss, acts, n) ==>
              acts[n].adjust.now - ss[n].lastScaled >= c.cooldown && ss[n].adjuster.WorkersSampled?
  {
    var s, s', a := ss[n], ss[n + 1], acts[n];
    assert Step(c, s, a) == Some(s');
    if a == ByAdjuster(SampleLoad) {
      assert SampledBefore(c, ss, acts, n + 1, s'.adjuster.pct);
    } else if s'.adjuster.LoadSampled? || s'.adjuster.WorkersSampled? {
      assert (s.adjuster.LoadSampled? || s.adjuster.WorkersSampled?) && s'.adjuster.pct == s.adjuster.pct;
      assert SampledBefore(c, ss, acts, n, s'.adjuster.pct);
    }
    assert s'.lastScaled != s.lastScaled ==> Scales(ss, acts, n);
  }

  lemma {:induction false} PacedRun(c: Config, ss: seq<Pool>, acts: seq<Action>, n: nat)
    requires Run(c, ss, acts) && n <= |acts| && c.cooldown >= 0
    ensures Paced(c, ss, acts, n)
  {
    if n > 0 {
      PacedRun(c, ss, acts, n - 1);
      PacedStep(c, ss, acts, n - 1);
    }
  }

  /** In every run two scalings are at least the cooldown apart, and each follows a load sample on its side of
      the thresholds. */
  lemma ScalingIsPacedAndJustified(c: Config, ss: seq<Pool>, acts: seq<Action>, n: nat)
    requires Run(c, ss, acts) && c.cooldown >= 0 && Scales(ss, acts, n)
    ensures forall i: nat :: i < n && Scales(ss, acts, i) ==> acts[n].adjust.now - acts[i].adjust.now >= c.cooldown
    ensures ss[n].adjuster.WorkersSampled? && SampledBefore(c, ss, acts, n, ss[n].adjuster.pct)
    ensures ss[n + 1].adjuster == Spawning ==> ss[n].adjuster.pct >= c.scaleUpPct
    ensures ss[n + 1].adjuster == Cancelling ==> ss[n].adjuster.pct <= c.scaleDownPct
  {
    PacedRun(c, ss, acts, n);
    PacedStep(c, ss, acts, n);
    assert Step(c, ss[n], acts[n]) == Some(ss[n + 1]);
  }

  /** No sample of the load, or of the workers, is taken at steps `from` up to `to`. */
  ghost predicate NoSampleIn(acts: seq<Action>, sample: AdjusterAction, from: nat, to: nat)
    requires to <= |acts|
  {
    forall k :: from <= k < to ==> acts[k] != ByAdjuster(sample)
  }

  /** What an adjustment has in hand are its own latest samples. */
  lemma {:induction false} LoadInHand(c: Config, ss: seq<Pool>, acts: seq<Action>, n: nat) returns (i: nat)
    requires Run(c, ss, acts) && n <= |acts| && (ss[n].adjuster.LoadSampled? || ss[n].adjuster.WorkersSampled?)
    ensures i < n && acts[i] == ByAdjuster(SampleLoad) && NoSampleIn(acts, SampleLoad, i + 1, n)
    ensures c.maxWorkers > 0 && ss[n].adjuster.pct == |ss[i].queue| * 100 / (4 * c.maxWorkers)
  {
    assert Step(c, ss[n - 1], acts[n - 1]) == Some(ss[n]);
    if acts[n - 1] == ByAdjuster(SampleLoad) {
      i := n - 1;
    } else {
      i := LoadInHand(c, ss, acts, n - 1);
    }
  }

  lemma {:induction false} WorkersInHand(c: Config, ss: seq<Pool>, acts: seq<Action>, n: nat) returns (j: nat)
    requires Run(c, ss, acts) && n <= |acts| && ss[n].adjuster.WorkersSampled?
    ensures j < n && acts[j] == ByAdjuster(SampleWorkers) && NoSampleIn(acts, SampleWorkers, j + 1, n)
    ensures ss[n].adjuster.current == ss[j].counter
  {
    assert Step(c, ss[n - 1], acts[n - 1]) == Some(ss[n]);
    if acts[n - 1] == ByAdjuster(SampleWorkers) {
      j := n - 1;
    } else {
      j := WorkersInHand(c, ss, acts, n - 1);
    }
  }

  /** In every run a decision rests on the latest samples: the percentage of the four-times-maximum slots that were
      filled, and the workers then counted. Within the cooldown nothing happens; after it the pool grows exactly
      when the load has reached the upper threshold and the maximum is not reached, otherwise it shrinks exactly
      when the load is down at the lower threshold and the minimum is exceeded, and otherwise it stays. */
  lemma DecisionIsExact(c: Config, ss: seq<Pool>, acts: seq<Action>, n: nat, now: int) returns (i: nat, j: nat)
    requires Run(c, ss, acts) && n < |acts| && acts[n] == ByAdjuster(Decide(now))
    ensures i < n && acts[i] == ByAdjuster(SampleLoad) && NoSampleIn(acts, SampleLoad, i + 1, n)
    ensures j < n && acts[j] == ByAdjuster(SampleWorkers) && NoSampleIn(acts, SampleWorkers, j + 1, n)
    ensures c.maxWorkers > 0
    ensures var pct, current := |ss[i].queue| * 100 / (4 * c.maxWorkers), ss[j].counter;
            var grow := pct >= c.scaleUpPct && current < c.maxWorkers;
            var shrink := !grow && pct <= c.scaleDownPct && current > c.minWorkers;
            var due := now - ss[n].lastScaled >= c.cooldown;
            && ss[n + 1].adjuster == (if due && grow then Spawning else if due && shrink then Cancelling else Idle)
            && ss[n + 1].lastScaled == (if due && (grow || shrink) then now else ss[n].lastScaled)
  {
    assert Step(c, ss[n], acts[n]) == Some(ss[n + 1]);
    i := LoadInHand(c, ss, acts, n);
    j := WorkersInHand(c, ss, acts, n);
  }

  /** An adjustment that nothing comes between decides by the load and the workers it starts from; it can start
      whenever the last one is over, the pool is not stopped and has a place for a worker. */
  lemma AdjustmentDecides(c: Config, s: Pool, now: int) returns (ss: seq<Pool>, acts: seq<Action>)
    requires s.adjuster == Idle && !s.stopped && c.maxWorkers > 0
    ensures acts ==
            [ByAdjuster(CheckRunning), ByAdjuster(SampleLoad), ByAdjuster(SampleWorkers), ByAdjuster(Decide(now))]
    ensures Path(c, ss, acts) && ss[0] == s
    ensures var pct := |s.queue| * 100 / (4 * c.maxWorkers);
            var grow := pct >= c.scaleUpPct && s.counter < c.maxWorkers;
            var shrink := !grow && pct <= c.scaleDownPct && s.counter > c.minWorkers;
            ss[4] == if now - s.lastScaled < c.cooldown then s
                     else if grow then s.(adjuster := Spawning, lastScaled := now)
                     else if shrink then s.(adjuster := Cancelling, lastScaled := now)
                     else s
  {
    acts := [ByAdjuster(CheckRunning), ByAdjuster(SampleLoad), ByAdjuster(SampleWorkers), ByAdjuster(Decide(now))];
    var s1 := s.(adjuster := Checked);
    var s2 := s.(adjuster := LoadSampled(|s.queue| * 100 / (4 * c.maxWorkers)));
    var s3 := s.(adjuster := WorkersSampled(s2.adjuster.pct, s.counter));
    assert s2.adjuster.pct == |s.queue| * 100 / Capacity(c);
    ss := [s, s1, s2, s3, Step(c, s3, acts[3]).value];
  }

  /** A scale-up of a pool that is not stopped adds one worker that waits for tasks, and counts it. */
  lemma ScaleUpAddsWorker(c: Config, s: Pool) returns (ss: seq<Pool>, acts: seq<Action>)
    requires s.adjuster == Spawning && !s.stopped
    ensures Path(c, ss, acts) && ss[0] == s && |acts| == 4
    ensures forall i :: 0 <= i < 4 ==> acts[i].ByAdjuster?
    ensures ss[4] == s.(adjuster := Idle, counter := s.counter + 1, cancels := s.cancels + [|s.workers|],
                        workers := s.workers + [Worker(false, Waiting)])
  {
    acts := [ByAdjuster(CheckStopped), ByAdjuster(CountWorker), ByAdjuster(RegisterCancel), ByAdjuster(Launch)];
    var s1 := s.(adjuster := Counting);
    var s2 := s.(adjuster := Registering, counter := s.counter + 1);
    var s3 := s2.(adjuster := Launching, cancels := s.cancels + [|s.workers|],
                  workers := s.workers + [Worker(false, NotLaunched)]);
    var s4 := s3.(adjuster := Idle, workers := s.workers + [Worker(false, Waiting)]);
    assert s3.workers[|s.workers| := Worker(false, Waiting)] == s4.workers;
    ss := [s, s1, s2, s3, s4];
  }

  /** A scale-down cancels the newest worker that is not cancelled yet, and no other. */
  lemma ScaleDownCancelsNewest(c: Config, ss: seq<Pool>, acts: seq<Action>, n: nat, w: nat)
    requires Run(c, ss, acts) && c.minWorkers <= c.maxWorkers && n < |acts| && acts[n] == ByAdjuster(CancelOne)
    requires w < |ss[n].workers| && !ss[n].workers[w].cancelled
    requires forall i :: w < i < |ss[n].workers| ==> ss[n].workers[i].cancelled
    ensures ss[n + 1].workers == ss[n].workers[w := ss[n].workers[w].(cancelled := true)]
    ensures ss[n + 1].adjuster == Idle && ss[n + 1].queue == ss[n].queue && ss[n + 1].counter == ss[n].counter
  {
    var s := ss[n];
    assert Step(c, s, acts[n]) == Some(ss[n + 1]);
    ScaledAt(c, ss, acts, n);
    var j :| 0 <= j < |s.cancels| && s.cancels[j] == w;
    var last := s.cancels[|s.cancels| - 1];
    assert !s.workers[last].cancelled && last >= w;
    CancelTopIs(s);
  }

  // ----- the minimum

  /** Step `n` cancels a worker, and step `i` took the sample that led to it. */
  ghost predicate CancelsAfter(acts: seq<Action>, i: nat, n: nat) {
    && i < n < |acts| && acts[n] == ByAdjuster(CancelOne) && acts[i] == ByAdjuster(SampleWorkers)
    && forall j :: i < j < n ==> acts[j] != ByAdjuster(SampleWorkers)
  }

  predicate Deciding(a: Adjuster) {
    a.WorkersSampled? || a == Cancelling
  }

  /** Between a sample and what comes of it nobody else touches the cancel functions. */
  lemma {:induction false} SampleBefore(c: Config, ss: seq<Pool>, acts: seq<Action>, n: nat) returns (i: nat)
    requires Run(c, ss, acts) && n <= |acts| && Deciding(ss[n].adjuster)
    ensures i < n && acts[i] == ByAdjuster(SampleWorkers) && ss[i].adjuster.LoadSampled?
    ensures forall j :: i < j < n ==> acts[j] != ByAdjuster(SampleWorkers)
    ensures ss[n].cancels == ss[i].cancels
    ensures ss[n].adjuster.WorkersSampled? ==> ss[n].adjuster.current == ss[i].counter
    ensures ss[n].adjuster == Cancelling ==> ss[i].counter > c.minWorkers
  {
    var s, a := ss[n - 1], acts[n - 1];
    assert Step(c, s, a) == Some(ss[n]);
    if a == ByAdjuster(SampleWorkers) {
      i := n - 1;
    } else {
      i := SampleBefore(c, ss, acts, n - 1);
      assert s.cancels == ss[n].cancels;
    }
  }

  /** What one cancellation leaves, in terms of its sample. */
  lemma CancelBySample(c: Config, ss: seq<Pool>, acts: seq<Action>, n: nat) returns (i: nat)
    requires Run(c, ss, acts) && c.minWorkers <= c.maxWorkers && n < |acts| && acts[n] == ByAdjuster(CancelOne)
    ensures CancelsAfter(acts, i, n) && CounterExact(ss[i])
    ensures |ss[n].cancels| == |ss[i].cancels| && ss[i].counter > c.minWorkers && ss[i].adjuster.LoadSampled?
    ensures |ss[n + 1].cancels| == if ss[n].cancels == [] then 0 else |ss[n].cancels| - 1
  {
    assert Step(c, ss[n], acts[n]) == Some(ss[n + 1]);
    i := SampleBefore(c, ss, acts, n);
    ScaledAt(c, ss, acts, i);
  }

  lemma OnlyOneSample(acts: seq<Action>, i: nat, j: nat, n: nat)
    requires CancelsAfter(acts, i, n) && CancelsAfter(acts, j, n)
    ensures i == j
  {
  }

  lemma OthersKeepCancels(c: Config, s: Pool, a: Action, s': Pool)
    requires Step(c, s, a) == Some(s') && a != ByAdjuster(CancelOne)
    ensures |s'.cancels| >= |s.cancels|
  {
  }

  /** Every cancellation was sampled with more than `minWorkers` uncancelled workers counted. */
  ghost predicate QuietEnough(c: Config, ss: seq<Pool>, acts: seq<Action>)
    requires |ss| == |acts| + 1
  {
    forall i: nat, n: nat :: CancelsAfter(acts, i, n) ==> ss[i].counter - Zombies(ss[i].workers) > c.minWorkers
  }

  lemma QuietFront(c: Config, ss: seq<Pool>, acts: seq<Action>, n: nat)
    requires |ss| == |acts| + 1 && QuietEnough(c, ss, acts) && n <= |acts|
    ensures QuietEnough(c, ss[..n + 1], acts[..n])
  {
    forall i: nat, k: nat | CancelsAfter(acts[..n], i, k)
      ensures ss[..n + 1][i].counter - Zombies(ss[..n + 1][i].workers) > c.minWorkers
    {
      assert forall j :: i < j < k ==> acts[..n][j] == acts[j];
      assert CancelsAfter(acts, i, k);
    }
  }

  lemma {:induction false} QuietKeepsMin(c: Config, ss: seq<Pool>, acts: seq<Action>)
    requires Run(c, ss, acts) && c.minWorkers <= c.maxWorkers && QuietEnough(c, ss, acts)
    ensures |ss[|acts|].cancels| >= c.minWorkers
  {
    if acts != [] {
      var n := |acts| - 1;
      QuietFront(c, ss, acts, n);
      QuietKeepsMin(c, ss[..n + 1], acts[..n]);
      assert Step(c, ss[n], acts[n]) == Some(ss[n + 1]);
      if acts[n] == ByAdjuster(CancelOne) {
        var i := CancelBySample(c, ss, acts, n);
      } else {
        OthersKeepCancels(c, ss[n], acts[n], ss[n + 1]);
      }
    }
  }

  lemma {:induction false} ClosedStays(c: Config, ss: seq<Pool>, acts: seq<Action>, i: nat, n: nat)
    requires Path(c, ss, acts) && i <= n <= |acts| && ss[i].closed
    ensures ss[n].closed
    decreases n
  {
    if i < n {
      ClosedStays(c, ss, acts, i, n - 1);
      assert Step(c, ss[n - 1], acts[n - 1]) == Some(ss[n]);
    }
  }

  /** Before the stop, the uncancelled workers stay at or above a positive minimum exactly when every
      cancellation follows a sample whose count exceeds the minimum by more than the cancelled workers that had
      not exited yet. Samples that lead to no cancellation do not matter. */
  lemma MinimumHoldsIff(c: Config, ss: seq<Pool>, acts: seq<Action>)
    requires Run(c, ss, acts) && 1 <= c.minWorkers <= c.maxWorkers && !ss[|acts|].closed
    ensures (forall k :: 0 <= k <= |acts| ==> |ss[k].cancels| >= c.minWorkers) <==> QuietEnough(c, ss, acts)
  {
    if QuietEnough(c, ss, acts) {
      forall k | 0 <= k <= |acts| ensures |ss[k].cancels| >= c.minWorkers {
        QuietFront(c, ss, acts, k);
        QuietKeepsMin(c, ss[..k + 1], acts[..k]);
      }
    }
    if forall k :: 0 <= k <= |acts| ==> |ss[k].cancels| >= c.minWorkers {
      forall i: nat, n: nat | CancelsAfter(acts, i, n) ensures ss[i].counter - Zombies(ss[i].workers) > c.minWorkers {
        var j := CancelBySample(c, ss, acts, n);
        OnlyOneSample(acts, i, j, n);
        assert |ss[n + 1].cancels| >= c.minWorkers;
        if ss[i].closed { ClosedStays(c, ss, acts, i, |acts|); }
      }
    }
  }

  /** In particular it is enough that no cancelled worker is left at the samples that lead to a cancellation. */
  lemma MinimumHolds(c: Config, ss: seq<Pool>, acts: seq<Action>)
    requires Run(c, ss, acts) && c.minWorkers <= c.maxWorkers
    requires forall i: nat, n: nat :: CancelsAfter(acts, i, n) ==> Zombies(ss[i].workers) == 0
    ensures QuietEnough(c, ss, acts) && forall k :: 0 <= k <= |acts| ==> |ss[k].cancels| >= c.minWorkers
  {
    forall i: nat, n: nat | CancelsAfter(acts, i, n) ensures ss[i].counter - Zombies(ss[i].workers) > c.minWorkers {
      var j := CancelBySample(c, ss, acts, n);
      OnlyOneSample(acts, i, j, n);
    }
    forall k | 0 <= k <= |acts| ensures |ss[k].cancels| >= c.minWorkers {
      QuietFront(c, ss, acts, k);
      QuietKeepsMin(c, ss[..k + 1], acts[..k]);
    }
  }

  /** A sample taken with `z` cancelled workers still around lets the scale-down it may lead to keep the
      minimum exactly when the sampled count exceeds the minimum by more than `z`. */
  lemma ScaleDownKeepsMinIff(c: Config, s: Pool, s': Pool)
    requires Scaled(c, s) && !s.closed && AdjusterStep(c, s, SampleWorkers) == Some(s')
    ensures |s'.cancels| - 1 >= c.minWorkers <==> s'.adjuster.current - Zombies(s.workers) > c.minWorkers
  {
    ScaledCounts(c, s);
  }
}
