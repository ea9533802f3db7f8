/** The consumer's per-key debouncing, with its timers, callbacks, stops and restarts as interleaved
    atomic steps. Events are numbered in the order of their arrival. */
module Debouncer {
  import opened Options

  type Key = string

  datatype Status =
    | Armed        // the timer runs
    | Fired        // the callback has started and can no longer be stopped
    | Unlisted     // the callback has removed its key from the table
    | Holding(pool: nat)   // the callback has read the current worker pool and let go of the lifecycle lock
    | Delivered    // the callback handed the event to its worker pool
    | Superseded   // the timer was stopped by a later event
    | Swept        // the timer was stopped by a stop of the consumer
    | Discarded    // the callback found no worker pool, or its pool dropped the event after being stopped

  /** `stopInternal` under the lifecycle lock: taken, timers cleared. */
  datatype Lifecycle = Free | Locked | Cleared

  datatype Consumer = Consumer(
    keys: seq<Key>, status: seq<Status>, timers: map<Key, nat>, delivered: seq<nat>,
    running: bool, looping: bool, lifecycle: Lifecycle,
    pool: nat,        // the number of the current worker pool
    poolClosed: bool,
    stopMark: nat)    // how many events had arrived when a stop last made progress

  datatype Action =
    | Arrive(key: Key)
    | Fire(event: nat)
    | Unlist(event: nat)
    | ReadPool(event: nat)
    | Submit(event: nat)
    | DropLate(event: nat)
    | Lock
    | ClearTimers
    | LoopExits
    | StopPool
    | EndStop
    | Restart

  const NEW := Consumer([], [], map[], [], true, false, Free, 0, false, 0)

  /** `debounce`: stop the timer listed under the key, if it has not fired, and list a new one. */
  function Arrived(s: Consumer, key: Key): Consumer {
    var n := |s.keys|;
    var status :=
      if key in s.timers && s.timers[key] < |s.status| && s.status[s.timers[key]] == Armed
      then s.status[s.timers[key] := Superseded] else s.status;
    s.(keys := s.keys + [key], status := status + [Armed], timers := s.timers[key := n])
  }

  function SweepTimers(s: Consumer): seq<Status> {
    seq(|s.status|, e requires 0 <= e < |s.status| =>
      if s.status[e] == Armed && e in s.timers.Values then Swept else s.status[e])
  }

  function Step(s: Consumer, a: Action): Option<Consumer> {
    match a
    case Arrive(key) => if s.looping then Some(Arrived(s, key)) else None
    case Fire(e) => if e < |s.status| && s.status[e] == Armed then Some(s.(status := s.status[e := Fired])) else None
    case Unlist(e) =>
      if e < |s.status| && e < |s.keys| && s.status[e] == Fired
      then Some(s.(status := s.status[e := Unlisted], timers := s.timers - {s.keys[e]})) else None
    case ReadPool(e) =>
      if e < |s.status| && s.status[e] == Unlisted && s.lifecycle == Free
      then Some(s.(status := s.status[e := if s.running then Holding(s.pool) else Discarded])) else None
    case Submit(e) =>
      if e < |s.status| && s.status[e].Holding?
      then Some(s.(status := s.status[e := Delivered], delivered := s.delivered + [e])) else None
    case DropLate(e) =>
      if e < |s.status| && s.status[e].Holding? && (s.status[e].pool < s.pool || s.poolClosed)
      then Some(s.(status := s.status[e := Discarded])) else None
    case Lock => if s.lifecycle == Free then Some(s.(lifecycle := Locked)) else None
    case ClearTimers =>
      if s.lifecycle == Locked
      then Some(s.(lifecycle := Cleared, status := SweepTimers(s), timers := map[], stopMark := |s.keys|)) else None
    case LoopExits => if s.looping then Some(s.(looping := false)) else None
    case StopPool =>
      if s.lifecycle == Cleared && !s.looping && !s.poolClosed then Some(s.(poolClosed := true)) else None
    case EndStop =>
      if s.lifecycle == Cleared && !s.looping && s.poolClosed
      then Some(s.(lifecycle := Free, running := false, stopMark := |s.keys|)) else None
    case Restart =>
      if s.lifecycle == Cleared && !s.looping && s.poolClosed
      then Some(s.(lifecycle := Free, running := true, looping := true, pool := s.pool + 1, poolClosed := false,
                   stopMark := |s.keys|)) else None
  }

  ghost predicate Path(ss: seq<Consumer>, acts: seq<Action>) {
    |ss| == |acts| + 1 && forall i :: 0 <= i < |acts| ==> Step(ss[i], acts[i]) == Some(ss[i + 1])
  }

  ghost predicate Run(ss: seq<Consumer>, acts: seq<Action>) {
    Path(ss, acts) && ss[0] == NEW
  }

  /** A later event for the same key has arrived. */
  ghost predicate Overtaken(s: Consumer, e: nat)
    requires e < |s.keys|
  {
    exists f :: e < f < |s.keys| && s.keys[f] == s.keys[e]
  }

  /** The table leads from each key to its latest event, whose callback has not yet removed the entry. */
  ghost predicate Listed(s: Consumer) {
    && |s.status| == |s.keys|
    && forall k :: k in s.timers ==>
         && s.timers[k] < |s.keys| && s.keys[s.timers[k]] == k && !Overtaken(s, s.timers[k])
         && (s.status[s.timers[k]] == Armed || s.status[s.timers[k]] == Fired)
  }

  /** An event is given up only for a later one of its key, or for a stop after its arrival. */
  ghost predicate Excused(s: Consumer) {
    && |s.status| == |s.keys| && s.stopMark <= |s.keys|
    && (forall e :: 0 <= e < |s.keys| && s.status[e] == Superseded ==> Overtaken(s, e))
    && (forall e :: 0 <= e < |s.keys| && (s.status[e] == Swept || s.status[e] == Discarded) ==> e < s.stopMark)
    && (!s.running ==> !s.looping && s.stopMark == |s.keys|)
  }

  ghost predicate DeliveredOnce(s: Consumer) {
    && (forall i :: 0 <= i < |s.delivered| ==> s.delivered[i] < |s.status| && s.status[s.delivered[i]] == Delivered)
    && (forall i, j :: 0 <= i < j < |s.delivered| ==> s.delivered[i] != s.delivered[j])
    && (forall e :: 0 <= e < |s.status| && s.status[e] == Delivered ==> e in s.delivered)
  }

  /** A callback may hold a stopped pool only if its event arrived before that stop made progress. */
  ghost predicate Pooled(s: Consumer) {
    && |s.status| == |s.keys|
    && (s.running && s.lifecycle != Cleared ==> !s.poolClosed)
    && forall e :: 0 <= e < |s.keys| && s.status[e].Holding? ==>
         && s.status[e].pool <= s.pool
         && (s.status[e].pool < s.pool || s.poolClosed || s.lifecycle == Cleared ==> e < s.stopMark)
  }

  ghost predicate Sound(s: Consumer) {
    Listed(s) && Excused(s) && DeliveredOnce(s) && Pooled(s)
  }

  lemma ArriveKeepsSound(s: Consumer, key: Key)
    requires Sound(s) && s.looping
    ensures Sound(Arrived(s, key))
  {
    ArriveKeepsListed(s, key);
    ArriveKeepsDelivered(s, key);
  }

  lemma ArriveKeepsListed(s: Consumer, key: Key)
    requires Listed(s) && Excused(s) && s.looping
    ensures Listed(Arrived(s, key)) && Excused(Arrived(s, key))
  {
    var s' := Arrived(s, key);
    forall e | 0 <= e < |s.keys| && Overtaken(s, e) ensures Overtaken(s', e) {
      var f :| e < f < |s.keys| && s.keys[f] == s.keys[e];
      assert s'.keys[f] == s'.keys[e];
    }
    if key in s.timers { assert s'.keys[|s.keys|] == s'.keys[s.timers[key]]; }
    forall k | k in s'.timers ensures !Overtaken(s', s'.timers[k]) {
      assert k != key ==> !Overtaken(s, s.timers[k]) && s'.keys[|s.keys|] != k;
    }
  }

  lemma ArriveKeepsDelivered(s: Consumer, key: Key)
    requires DeliveredOnce(s) && Pooled(s)
    ensures DeliveredOnce(Arrived(s, key)) && Pooled(Arrived(s, key))
  {
  }

  lemma SameArrivals(s: Consumer, s': Consumer)
    requires s'.keys == s.keys
    ensures forall e: nat :: e < |s.keys| ==> (Overtaken(s', e) <==> Overtaken(s, e))
  {
  }

  lemma FireKeepsSound(s: Consumer, e: nat, s': Consumer)
    requires Sound(s) && Step(s, Fire(e)) == Some(s')
    ensures Sound(s')
  {
    SameArrivals(s, s');
    assert s'.status[e] == Fired && forall f :: 0 <= f < |s.status| && f != e ==> s'.status[f] == s.status[f];
  }

  /** The entry a callback removes is the key's only one, whichever event it led to. */
  lemma UnlistKeepsSound(s: Consumer, e: nat, s': Consumer)
    requires Sound(s) && Step(s, Unlist(e)) == Some(s')
    ensures Sound(s')
  {
    SameArrivals(s, s');
    assert forall f :: 0 <= f < |s.status| && f != e ==> s'.status[f] == s.status[f];
    forall k | k in s'.timers ensures s'.timers[k] != e { assert s.keys[s.timers[k]] == k; }
  }

  lemma ClearKeepsSound(s: Consumer, s': Consumer)
    requires Sound(s) && Step(s, ClearTimers) == Some(s')
    ensures Sound(s')
  {
    SameArrivals(s, s');
  }

  /** A callback's own step on its event, once its entry is gone from the table. */
  lemma MoveKeepsSound(s: Consumer, e: nat, to: Status, s': Consumer)
    requires Sound(s) && e < |s.status| && s' == s.(status := s.status[e := to])
    requires s.status[e] == Unlisted || s.status[e].Holding?
    requires to == Holding(s.pool) || to == Discarded
    requires to == Discarded ==> e < s.stopMark
    requires to == Holding(s.pool) ==> !s.poolClosed && s.lifecycle == Free
    ensures Sound(s')
  {
    SameArrivals(s, s');
    assert forall f :: 0 <= f < |s.status| && f != e ==> s'.status[f] == s.status[f];
  }

  lemma SubmitKeepsDelivered(s: Consumer, e: nat, s': Consumer)
    requires DeliveredOnce(s) && Step(s, Submit(e)) == Some(s')
    ensures DeliveredOnce(s')
  {
    assert s'.delivered[|s.delivered|] == e;
    assert forall i :: 0 <= i < |s.delivered| ==> s'.delivered[i] == s.delivered[i] != e;
    forall f | 0 <= f < |s'.status| && s'.status[f] == Delivered && f != e ensures f in s'.delivered {
      var i :| 0 <= i < |s.delivered| && s.delivered[i] == f;
      assert s'.delivered[i] == f;
    }
  }

  lemma SubmitKeepsSound(s: Consumer, e: nat, s': Consumer)
    requires Sound(s) && Step(s, Submit(e)) == Some(s')
    ensures Sound(s')
  {
    SubmitKeepsDelivered(s, e, s');
    SameArrivals(s, s');
    assert forall f :: 0 <= f < |s.status| && f != e ==> s'.status[f] == s.status[f];
  }

  lemma StepKeepsSound(s: Consumer, a: Action, s': Consumer)
    requires Sound(s) && Step(s, a) == Some(s')
    ensures Sound(s')
  {
    match a
    case Arrive(key) => ArriveKeepsSound(s, key);
    case Fire(e) => FireKeepsSound(s, e, s');
    case Unlist(e) => UnlistKeepsSound(s, e, s');
    case ReadPool(e) => MoveKeepsSound(s, e, if s.running then Holding(s.pool) else Discarded, s');
    case Submit(e) => SubmitKeepsSound(s, e, s');
    case DropLate(e) => MoveKeepsSound(s, e, Discarded, s');
    case ClearTimers => ClearKeepsSound(s, s');
    case _ => SameArrivals(s, s');
  }

  lemma {:induction false} RunKeepsSound(ss: seq<Consumer>, acts: seq<Action>)
    requires Run(ss, acts)
    ensures Sound(ss[|acts|])
  {
    if acts != [] {
      var n := |acts| - 1;
      RunKeepsSound(ss[..n + 1], acts[..n]);
      StepKeepsSound(ss[n], acts[n], ss[n + 1]);
    }
  }

  /** In every interleaving, an event that no later event of its key and no stop has overtaken is still on
      its way, with the open pool in hand if it has one, or has been delivered; and no event is delivered
      twice. */
  lemma LatestEventIsNeverLost(ss: seq<Consumer>, acts: seq<Action>, e: nat)
    requires Run(ss, acts)
    requires var s := ss[|acts|]; e < |s.keys| && !Overtaken(s, e) && s.stopMark <= e
    ensures var s := ss[|acts|];
            && e < |s.status|
            && (s.status[e] == Armed || s.status[e] == Fired || s.status[e] == Unlisted
                || s.status[e] == Holding(s.pool) || e in s.delivered)
            && (s.status[e].Holding? ==> !s.poolClosed)
    ensures forall i, j :: 0 <= i < j < |ss[|acts|].delivered| ==> ss[|acts|].delivered[i] != ss[|acts|].delivered[j]
  {
    RunKeepsSound(ss, acts);
  }

  /** Once every callback has finished, such an event has been delivered, exactly once. */
  lemma LatestEventIsDelivered(ss: seq<Consumer>, acts: seq<Action>, e: nat)
    requires Run(ss, acts)
    requires var s := ss[|acts|];
             && (forall f :: 0 <= f < |s.status| ==>
                  s.status[f] != Armed && s.status[f] != Fired && s.status[f] != Unlisted && !s.status[f].Holding?)
             && e < |s.keys| && !Overtaken(s, e) && s.stopMark <= e
    ensures multiset(ss[|acts|].delivered)[e] == 1
  {
    RunKeepsSound(ss, acts);
    var s := ss[|acts|];
    var i :| 0 <= i < |s.delivered| && s.delivered[i] == e;
    OnceInDistinct(s.delivered, i);
  }

  lemma OnceInDistinct(d: seq<nat>, i: nat)
    requires i < |d| && forall j, k :: 0 <= j < k < |d| ==> d[j] != d[k]
    ensures multiset(d)[d[i]] == 1
  {
    assert d == d[..i] + [d[i]] + d[i + 1..];
    assert d[i] !in d[..i] && d[i] !in d[i + 1..];
  }

  /** A stop of the consumer stops exactly the timers that still run and are still in the table. */
  lemma StopSweepsListed(s: Consumer, s': Consumer, e: nat)
    requires Sound(s) && Step(s, ClearTimers) == Some(s') && e < |s.keys|
    ensures s'.timers == map[]
    ensures s'.status[e] == if s.status[e] == Armed && s.keys[e] in s.timers && s.timers[s.keys[e]] == e
                            then Swept else s.status[e]
  {
    assert e in s.timers.Values <==> exists k :: k in s.timers && s.timers[k] == e;
  }

  // ----- coalescing is only best effort

  /** An arrival stops the latest earlier event of its key exactly when that event's timer still runs and its
      entry is still in the table. */
  lemma ArrivalSupersedesIff(s: Consumer, key: Key, e: nat)
    requires Sound(s) && e < |s.keys| && s.keys[e] == key && !Overtaken(s, e)
    ensures Arrived(s, key).status[e] == Superseded <==> s.status[e] == Armed && key in s.timers
    ensures forall f :: 0 <= f < |s.keys| && f != e ==> Arrived(s, key).status[f] == s.status[f]
  {
    if key in s.timers {
      var f := s.timers[key];
      assert Overtaken(s, f) || f >= e;
      assert Overtaken(s, e) || e >= f;
    }
  }

  lemma Extend(ss: seq<Consumer>, acts: seq<Action>, a: Action) returns (ss': seq<Consumer>, acts': seq<Action>)
    requires Run(ss, acts) && Step(ss[|acts|], a).Some?
    ensures Run(ss', acts') && Step(ss[|acts|], a) == Some(ss'[|acts'|])
  {
    ss', acts' := ss + [Step(ss[|acts|], a).value], acts + [a];
  }

  lemma RunToTheEnd(ss: seq<Consumer>, acts: seq<Action>, e: nat) returns (ss': seq<Consumer>, acts': seq<Action>)
    requires Run(ss, acts)
    requires var s := ss[|acts|];
             e < |s.keys| == |s.status| && s.status[e] == Armed && s.running && s.lifecycle == Free
    ensures Run(ss', acts')
    ensures var s := ss[|acts|];
            ss'[|acts'|] == s.(status := s.status[e := Delivered], timers := s.timers - {s.keys[e]},
                               delivered := s.delivered + [e])
  {
    ss', acts' := Extend(ss, acts, Fire(e));
    ss', acts' := Extend(ss', acts', Unlist(e));
    ss', acts' := Extend(ss', acts', ReadPool(e));
    ss', acts' := Extend(ss', acts', Submit(e));
  }

  lemma Restarted() returns (ss: seq<Consumer>, acts: seq<Action>)
    ensures Run(ss, acts) && ss[|acts|] == NEW.(looping := true, pool := 1)
  {
    ss, acts := [NEW], [];
    ss, acts := Extend(ss, acts, Lock);
    ss, acts := Extend(ss, acts, ClearTimers);
    ss, acts := Extend(ss, acts, StopPool);
    ss, acts := Extend(ss, acts, Restart);
  }

  lemma Overlap() returns (ss: seq<Consumer>, acts: seq<Action>)
    ensures Run(ss, acts)
    ensures ss[|acts|] == Consumer(["k", "k"], [Delivered, Armed], map[], [0], true, true, Free, 1, false, 0)
  {
    ss, acts := Restarted();
    ss, acts := Extend(ss, acts, Arrive("k"));
    ss, acts := Extend(ss, acts, Fire(0));
    ss, acts := Extend(ss, acts, Arrive("k"));
    ss, acts := Extend(ss, acts, Unlist(0));
    ss, acts := Extend(ss, acts, ReadPool(0));
    ss, acts := Extend(ss, acts, Submit(0));
  }

  /** A callback that had fired when the next event came takes that event's entry out of the table, so the
      event after it stops nothing: all three are delivered. */
  lemma StaleCallbackDefeatsCoalescing()
    ensures exists ss: seq<Consumer>, acts: seq<Action> ::
              Run(ss, acts) && ss[|acts|].keys == ["k", "k", "k"] && ss[|acts|].delivered == [0, 1, 2]
  {
    var ss, acts := Overlap();
    ss, acts := Extend(ss, acts, Arrive("k"));
    ss, acts := RunToTheEnd(ss, acts, 1);
    ss, acts := RunToTheEnd(ss, acts, 2);
  }

  // ----- what can still become of an event

  ghost predicate Outcome(s: Consumer, e: nat, delivered: bool) {
    e < |s.status| && if delivered then e in s.delivered else s.status[e] == Discarded || s.status[e] == Swept
  }

  /** From `s` the consumer can get to a state in which the event is delivered (or lost to a stop). */
  ghost predicate Leads(s: Consumer, e: nat, delivered: bool, ss: seq<Consumer>, acts: seq<Action>) {
    Path(ss, acts) && ss[0] == s && Outcome(ss[|acts|], e, delivered)
  }

  lemma Before(s: Consumer, a: Action, e: nat, delivered: bool, ss: seq<Consumer>, acts: seq<Action>)
      returns (ss': seq<Consumer>, acts': seq<Action>)
    requires ss != [] && Leads(ss[0], e, delivered, ss, acts) && Step(s, a) == Some(ss[0])
    ensures Leads(s, e, delivered, ss', acts')
  {
    ss', acts' := [s] + ss, [a] + acts;
  }

  predicate Stopped(s: Consumer) {
    s.lifecycle == Cleared && !s.looping && s.poolClosed
  }

  function TowardsStop(s: Consumer): Action {
    if s.lifecycle == Free then Lock
    else if s.lifecycle == Locked then ClearTimers
    else if s.looping then LoopExits
    else StopPool
  }

  function StopSteps(s: Consumer): nat {
    (if s.lifecycle == Free then 2 else if s.lifecycle == Locked then 1 else 0)
    + (if s.looping then 1 else 0) + if s.poolClosed then 0 else 1
  }

  /** A stop goes on, and touches no event whose timer has fired. */
  lemma StopGoesOn(s: Consumer, e: nat) returns (s': Consumer)
    requires |s.status| == |s.keys| && e < |s.keys| && s.status[e] != Armed && !Stopped(s)
    ensures Step(s, TowardsStop(s)) == Some(s') && StopSteps(s') < StopSteps(s)
    ensures |s'.status| == |s'.keys| == |s.keys| && s'.status[e] == s.status[e] && s'.pool == s.pool
  {
    s' := Step(s, TowardsStop(s)).value;
  }

  function Rank(status: Status): nat {
    match status
    case Armed => 3
    case Fired => 2
    case Unlisted => 1
    case _ => 0
  }

  predicate Pending(status: Status) {
    status == Armed || status == Fired || status == Unlisted || status.Holding?
  }

  /** What leads on to the delivery of an event: its callback goes on as long as it finds an open pool at once, and
      otherwise waits for a restart. */
  function TowardsDelivery(s: Consumer, e: nat): Action
    requires e < |s.status| && Pending(s.status[e])
  {
    match s.status[e]
    case Armed => Fire(e)
    case Fired => Unlist(e)
    case Holding(_) => Submit(e)
    case _ =>
      if s.lifecycle == Free && s.running then ReadPool(e) else if Stopped(s) then Restart else TowardsStop(s)
  }

  lemma {:induction false} CanBeDelivered(s: Consumer, e: nat) returns (ss: seq<Consumer>, acts: seq<Action>)
    requires |s.status| == |s.keys| && e < |s.keys| && Pending(s.status[e])
    ensures Leads(s, e, true, ss, acts)
    decreases Rank(s.status[e]), !(s.lifecycle == Free && s.running), StopSteps(s)
  {
    var a := TowardsDelivery(s, e);
    var s' := Step(s, a).value;
    if a == Submit(e) {
      assert s'.delivered[|s.delivered|] == e;
      ss, acts := [s, s'], [a];
    } else {
      if a == TowardsStop(s) { var s'' := StopGoesOn(s, e); }
      ss, acts := CanBeDelivered(s', e);
      ss, acts := Before(s, a, e, true, ss, acts);
    }
  }

  /** What leads on to its loss: the callback goes on until it has to read the pool, and waits for a stop. */
  function TowardsLoss(s: Consumer, e: nat): Action
    requires e < |s.status| && Pending(s.status[e])
  {
    match s.status[e]
    case Armed => Fire(e)
    case Fired => Unlist(e)
    case Holding(_) => if Stopped(s) then DropLate(e) else TowardsStop(s)
    case _ =>
      if s.lifecycle == Free && !s.running then ReadPool(e) else if Stopped(s) then EndStop else TowardsStop(s)
  }

  lemma {:induction false} CanBeLost(s: Consumer, e: nat) returns (ss: seq<Consumer>, acts: seq<Action>)
    requires |s.status| == |s.keys| && e < |s.keys| && Pending(s.status[e])
    ensures Leads(s, e, false, ss, acts)
    decreases Rank(s.status[e]), s.status[e] == Unlisted && !(s.lifecycle == Free && !s.running), StopSteps(s)
  {
    var a := TowardsLoss(s, e);
    var s' := Step(s, a).value;
    if s'.status[e] == Discarded {
      ss, acts := [s, s'], [a];
    } else {
      if a == TowardsStop(s) { var s'' := StopGoesOn(s, e); }
      ss, acts := CanBeLost(s', e);
      ss, acts := Before(s, a, e, false, ss, acts);
    }
  }

  lemma DoneStep(s: Consumer, a: Action, s': Consumer, e: nat)
    requires Sound(s) && Step(s, a) == Some(s') && e < |s.status| && !Pending(s.status[e])
    ensures Sound(s') && e < |s'.status| && s'.status[e] == s.status[e]
  {
    StepKeepsSound(s, a, s');
  }

  lemma {:induction false} DoneStays(ss: seq<Consumer>, acts: seq<Action>, e: nat)
    requires Path(ss, acts) && Sound(ss[0]) && e < |ss[0].status| && !Pending(ss[0].status[e])
    ensures Sound(ss[|acts|]) && e < |ss[|acts|].status| && ss[|acts|].status[e] == ss[0].status[e]
  {
    if acts != [] {
      var n := |acts| - 1;
      DoneStays(ss[..n + 1], acts[..n], e);
      DoneStep(ss[n], acts[n], ss[n + 1], e);
    }
  }

  /** In every reachable state an event can still be delivered exactly when it is on its way or was delivered, and
      can still be lost to a stop exactly when it is on its way or was lost to one. */
  lemma OutcomesIff(ss: seq<Consumer>, acts: seq<Action>, e: nat, delivered: bool)
    requires Run(ss, acts) && e < |ss[|acts|].status|
    ensures (exists ss', acts' :: Leads(ss[|acts|], e, delivered, ss', acts')) <==>
              var status := ss[|acts|].status[e];
              || status == Armed || status == Fired || status == Unlisted || status.Holding?
              || (if delivered then status == Delivered else status == Discarded || status == Swept)
  {
    var s := ss[|acts|];
    RunKeepsSound(ss, acts);
    if Pending(s.status[e]) {
      if delivered {
        var ss', acts' := CanBeDelivered(s, e);
      } else {
        var ss', acts' := CanBeLost(s, e);
      }
    } else {
      if ss', acts' :| Leads(s, e, delivered, ss', acts') { DoneStays(ss', acts', e); }
      if Outcome(s, e, delivered) { assert Leads(s, e, delivered, [s], []); }
    }
  }

  ghost predicate Looping(acts: seq<Action>) {
    exists i :: 0 <= i < |acts| && acts[i] == Restart && forall j :: i < j < |acts| ==> acts[j] != LoopExits
  }

  lemma LoopingStep(acts: seq<Action>, a: Action)
    ensures Looping(acts + [a]) <==> a == Restart || (a != LoopExits && Looping(acts))
  {
    var all := acts + [a];
    if a == Restart { assert all[|acts|] == Restart; }
    if a != LoopExits && Looping(acts) {
      var i :| 0 <= i < |acts| && acts[i] == Restart && forall j :: i < j < |acts| ==> acts[j] != LoopExits;
      assert all[i] == Restart;
    }
    if i :| 0 <= i < |all| && all[i] == Restart && forall j :: i < j < |all| ==> all[j] != LoopExits {
      assert i < |acts| ==> acts[i] == Restart && all[|acts|] == a;
      assert forall j :: i < j < |acts| ==> acts[j] == all[j];
    }
  }

  /** Events are taken in exactly from a start on until the loop exits, which it may do at any time. */
  lemma {:induction false} ArrivalIsTakenIff(ss: seq<Consumer>, acts: seq<Action>, key: Key)
    requires Run(ss, acts)
    ensures Step(ss[|acts|], Arrive(key)).Some? <==> Looping(acts)
    ensures Step(ss[|acts|], LoopExits).Some? <==> Looping(acts)
  {
    if acts != [] {
      var n := |acts| - 1;
      ArrivalIsTakenIff(ss[..n + 1], acts[..n], key);
      LoopingStep(acts[..n], acts[n]);
      assert acts[..n] + [acts[n]] == acts;
    }
  }

  /** A stop under way lets the loop exit before it stops the pool, and only then ends or starts anew. */
  lemma StopAwaitsLoop(ss: seq<Consumer>, acts: seq<Action>, a: Action)
    requires Run(ss, acts) && (a == StopPool || a == EndStop || a == Restart)
    requires Step(ss[|acts|], a).Some?
    ensures !Looping(acts)
  {
    ArrivalIsTakenIff(ss, acts, "");
  }

  // ----- when a held event is dropped

  /** A pool was stopped after the callback of the event had read which one is current. */
  ghost predicate StoppedSince(acts: seq<Action>, e: nat) {
    exists i, j :: 0 <= i < j < |acts| && acts[i] == ReadPool(e) && acts[j] == StopPool
  }

  lemma StoppedSinceStep(acts: seq<Action>, a: Action, e: nat)
    ensures StoppedSince(acts + [a], e) <==> StoppedSince(acts, e) || (a == StopPool && ReadPool(e) in acts)
  {
    var all := acts + [a];
    if i, j :| 0 <= i < j < |acts| && acts[i] == ReadPool(e) && acts[j] == StopPool {
      assert all[i] == ReadPool(e) && all[j] == StopPool;
    }
    if a == StopPool && ReadPool(e) in acts {
      var i :| 0 <= i < |acts| && acts[i] == ReadPool(e);
      assert all[i] == ReadPool(e) && all[|acts|] == StopPool;
    }
    if i, j :| 0 <= i < j < |all| && all[i] == ReadPool(e) && all[j] == StopPool {
      assert acts[i] == ReadPool(e) && (j < |acts| ==> acts[j] == StopPool);
    }
  }

  /** How the event stands to the pool it holds, or will read. */
  ghost predicate HoldsKnown(s: Consumer, acts: seq<Action>, e: nat) {
    && (e >= |s.status| || Rank(s.status[e]) > 0 ==> ReadPool(e) !in acts)
    && (e < |s.status| && s.status[e].Holding? ==>
          && ReadPool(e) in acts
          && (s.status[e].pool < s.pool || s.poolClosed <==> StoppedSince(acts, e)))
  }

  lemma {:induction false} HoldsKnownInRuns(ss: seq<Consumer>, acts: seq<Action>, e: nat)
    requires Run(ss, acts)
    ensures HoldsKnown(ss[|acts|], acts, e)
  {
    if acts != [] {
      var n := |acts| - 1;
      RunKeepsSound(ss[..n + 1], acts[..n]);
      HoldsKnownInRuns(ss[..n + 1], acts[..n], e);
      HoldsKnownStep(ss[n], acts[..n], acts[n], ss[n + 1], e);
      assert acts[..n] + [acts[n]] == acts;
    }
  }

  lemma HoldsKnownStep(s: Consumer, acts: seq<Action>, a: Action, s': Consumer, e: nat)
    requires Sound(s) && HoldsKnown(s, acts, e) && Step(s, a) == Some(s')
    ensures HoldsKnown(s', acts + [a], e)
  {
    StoppedSinceStep(acts, a, e);
    assert ReadPool(e) in acts + [a] <==> a == ReadPool(e) || ReadPool(e) in acts;
    if a == ReadPool(e) { assert !StoppedSince(acts, e); }
  }

  /** In every run a pool drops an event in hand exactly if it was stopped after the event's callback had read it,
      whether or not another pool has been opened since. */
  lemma DroppedLateIff(ss: seq<Consumer>, acts: seq<Action>, e: nat)
    requires Run(ss, acts) && e < |ss[|acts|].status| && ss[|acts|].status[e].Holding?
    ensures Step(ss[|acts|], DropLate(e)).Some? <==> StoppedSince(acts, e)
    ensures Step(ss[|acts|], Submit(e)).Some?
  {
    HoldsKnownInRuns(ss, acts, e);
  }
}
