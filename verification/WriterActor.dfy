/** The single-writer actor: callers send requests over a buffered channel, one goroutine performs them
    and replies. Requests are numbered in the order in which they enter the channel. */
module WriterActor {
  import opened Options

  datatype Request =
    | LinkRequest(issue: string, pr: string)
    | RecordRequest(key: string, value: string, prID: string, repoGroup: string, prNumber: int)

  datatype Target = IssueLinks | SyncHistory | PRs

  /** Which table a request ends up in; `writeSyncRecord` sends neither id, group nor number. */
  function Route(r: Request): Target {
    match r
    case LinkRequest(_, _) => IssueLinks
    case RecordRequest(_, _, prID, group, number) =>
      if prID == "" && group == "" && number == 0 then SyncHistory else PRs
  }

  datatype Outcome = Nil | DbError | Panicked

  datatype Worker = Idle | Taken(id: nat) | Performed(id: nat, outcome: Outcome) | Gone

  // What a caller of `write` has been told.
  datatype Caller = Waiting | Returned(outcome: Outcome) | ToldStopped

  datatype Actor = Actor(
    requests: seq<Request>, buffer: seq<nat>, performed: seq<(nat, Outcome)>,
    log: seq<(Target, nat)>,    // the writes that reached the database
    replies: map<nat, Outcome>, callers: seq<Caller>, worker: Worker, stopped: bool)

  datatype Action =
    | Send(request: Request)
    | SendStopped              // the caller saw the stop instead of a free slot
    | Receive
    | Perform(outcome: Outcome, wrote: bool)
    | Reply
    | GetReply(id: nat)
    | SeeStopped(id: nat)
    | Leave
    | Stop

  const NEW := Actor([], [], [], [], map[], [], Idle, false)

  function Step(capacity: nat, s: Actor, a: Action): Option<Actor> {
    match a
    case Send(r) =>
      if |s.buffer| < capacity
      then Some(s.(requests := s.requests + [r], buffer := s.buffer + [|s.requests|], callers := s.callers + [Waiting]))
      else None
    case SendStopped => if s.stopped then Some(s) else None
    case Receive =>
      if s.worker == Idle && s.buffer != []
      then Some(s.(worker := Taken(s.buffer[0]), buffer := s.buffer[1..])) else None
    case Perform(outcome, wrote) =>
      // A request that failed or panicked may or may not have written; one that succeeded has.
      if s.worker.Taken? && s.worker.id < |s.requests| && (outcome == Nil ==> wrote) then
        var id := s.worker.id;
        Some(s.(worker := Performed(id, outcome), performed := s.performed + [(id, outcome)],
                log := if wrote then s.log + [(Route(s.requests[id]), id)] else s.log))
      else None
    case Reply =>
      // The reply channel has room for one value; sending a second one would block the actor.
      if s.worker.Performed? && s.worker.id !in s.replies
      then Some(s.(worker := Idle, replies := s.replies[s.worker.id := s.worker.outcome])) else None
    case GetReply(id) =>
      if id < |s.callers| && s.callers[id] == Waiting && id in s.replies
      then Some(s.(callers := s.callers[id := Returned(s.replies[id])])) else None
    case SeeStopped(id) =>
      if id < |s.callers| && s.callers[id] == Waiting && s.stopped
      then Some(s.(callers := s.callers[id := ToldStopped])) else None
    case Leave => if s.worker == Idle && s.stopped then Some(s.(worker := Gone)) else None
    case Stop => if !s.stopped then Some(s.(stopped := true)) else None
  }

  ghost predicate Path(capacity: nat, ss: seq<Actor>, acts: seq<Action>) {
    |ss| == |acts| + 1 && forall i :: 0 <= i < |acts| ==> Step(capacity, ss[i], acts[i]) == Some(ss[i + 1])
  }

  ghost predicate Run(capacity: nat, ss: seq<Actor>, acts: seq<Action>) {
    Path(capacity, ss, acts) && ss[0] == NEW
  }

  function InFlight(w: Worker): nat {
    if w.Taken? then 1 else 0
  }

  /** Requests are performed in the order in which they entered: the performed ones, then the one taken,
      then the buffered ones are 0, 1, 2, ... without gap or repetition. */
  ghost predicate InOrder(s: Actor) {
    var done := |s.performed|;
    && (forall i :: 0 <= i < done ==> s.performed[i].0 == i)
    && (s.worker.Taken? ==> s.worker.id == done)
    && (forall i :: 0 <= i < |s.buffer| ==> s.buffer[i] == done + InFlight(s.worker) + i)
    && |s.requests| == |s.callers| == done + InFlight(s.worker) + |s.buffer|
  }

  /** Replies repeat outcomes, and of the requests performed only the one in hand has no reply. */
  ghost predicate Answered(s: Actor) {
    && (forall id :: id in s.replies ==> id < |s.performed| && s.replies[id] == s.performed[id].1)
    && (forall id :: 0 <= id < |s.performed| ==> id in s.replies || (s.worker.Performed? && s.worker.id == id))
    && (s.worker.Performed? ==>
          |s.performed| > 0 && s.worker.id == |s.performed| - 1 && s.worker.id !in s.replies &&
          s.worker.outcome == s.performed[s.worker.id].1)
    && (forall id :: 0 <= id < |s.callers| && s.callers[id].Returned? ==>
          id in s.replies && s.replies[id] == s.callers[id].outcome)
  }

  /** The log holds performed requests in the order of the channel, each at most once and in its own table,
      and all that succeeded. */
  ghost predicate Logged(s: Actor) {
    && |s.performed| <= |s.requests|
    && (forall i :: 0 <= i < |s.log| ==> s.log[i].1 < |s.performed| && s.log[i].0 == Route(s.requests[s.log[i].1]))
    && (forall i, j :: 0 <= i < j < |s.log| ==> s.log[i].1 < s.log[j].1)
    && (forall id :: 0 <= id < |s.performed| && s.performed[id].1 == Nil ==> (Route(s.requests[id]), id) in s.log)
  }

  lemma StepKeepsOrder(capacity: nat, s: Actor, a: Action, s': Actor)
    requires InOrder(s) && Step(capacity, s, a) == Some(s')
    ensures InOrder(s')
  {
  }

  lemma StepKeeps(capacity: nat, s: Actor, a: Action, s': Actor)
    requires InOrder(s) && Answered(s) && Step(capacity, s, a) == Some(s')
    ensures InOrder(s') && Answered(s')
  {
    StepKeepsOrder(capacity, s, a, s');
  }

  lemma StepKeepsLog(capacity: nat, s: Actor, a: Action, s': Actor)
    requires InOrder(s) && Logged(s) && Step(capacity, s, a) == Some(s')
    ensures Logged(s')
  {
    match a
    case Perform(outcome, wrote) =>
      var id := s.worker.id;
      forall i | 0 <= i < |s'.performed| && s'.performed[i].1 == Nil ensures (Route(s'.requests[i]), i) in s'.log {
        if i == id {
          assert s'.log[|s.log|] == (Route(s.requests[id]), id);
        } else {
          assert s'.performed[i] == s.performed[i];
        }
      }
    case _ =>
      assert s'.log == s.log && s'.performed == s.performed;
      assert s.requests <= s'.requests;
  }

  lemma {:induction false} RunKeeps(capacity: nat, ss: seq<Actor>, acts: seq<Action>)
    requires Run(capacity, ss, acts)
    ensures InOrder(ss[|acts|]) && Answered(ss[|acts|]) && Logged(ss[|acts|])
  {
    if acts != [] {
      var n := |acts| - 1;
      RunKeeps(capacity, ss[..n + 1], acts[..n]);
      StepKeeps(capacity, ss[n], acts[n], ss[n + 1]);
      StepKeepsLog(capacity, ss[n], acts[n], ss[n + 1]);
    }
  }

  // The actor's write for the request is in the log.
  ghost predicate Written(s: Actor, id: nat) {
    exists i :: 0 <= i < |s.log| && s.log[i].1 == id
  }

  /** In every run database writes happen in channel order, at most once each; links go to their own table,
      records that name no pull request to the sync history and all others to the pull requests; the actor never
      blocks on a reply; and a caller that was told success has its write in the log. */
  lemma WritesInOrderAndAcknowledged(capacity: nat, ss: seq<Actor>, acts: seq<Action>)
    requires Run(capacity, ss, acts)
    ensures var s := ss[|acts|];
            && (forall i, j :: 0 <= i < j < |s.log| ==> s.log[i].1 < s.log[j].1 < |s.requests|)
            && (forall i :: 0 <= i < |s.log| ==>
                 && s.log[i].1 < |s.requests|
                 && var (table, r) := (s.log[i].0, s.requests[s.log[i].1]);
                 && (table == IssueLinks <==> r.LinkRequest?)
                 && (table == SyncHistory <==>
                      r.RecordRequest? && r.prID == "" && r.repoGroup == "" && r.prNumber == 0)
                 && (table == PRs <==>
                      r.RecordRequest? && (r.prID != "" || r.repoGroup != "" || r.prNumber != 0)))
            && (s.worker.Performed? ==> Step(capacity, s, Reply).Some?)
            && (forall id :: 0 <= id < |s.callers| && s.callers[id] == Returned(Nil) ==> Written(s, id))
  {
    RunKeeps(capacity, ss, acts);
    var s := ss[|acts|];
    forall id | 0 <= id < |s.callers| && s.callers[id] == Returned(Nil) ensures Written(s, id) {
      assert (Route(s.requests[id]), id) in s.log;
    }
  }

  /** The channel never holds more than its capacity, a caller can send exactly while there is room, and can be
      turned away, with nothing changed, exactly after the stop; the actor can be stopped once, at any time. */
  lemma {:induction false} ChannelIsBounded(capacity: nat, ss: seq<Actor>, acts: seq<Action>, r: Request)
    requires Run(capacity, ss, acts)
    ensures |ss[|acts|].buffer| <= capacity
    ensures Step(capacity, ss[|acts|], Send(r)).Some? <==> |ss[|acts|].buffer| < capacity
    ensures Step(capacity, ss[|acts|], SendStopped) == if Stop in acts then Some(ss[|acts|]) else None
    ensures ss[|acts|].stopped == (Stop in acts) && (Step(capacity, ss[|acts|], Stop).Some? <==> Stop !in acts)
  {
    if acts != [] {
      var n := |acts| - 1;
      ChannelIsBounded(capacity, ss[..n + 1], acts[..n], r);
      assert acts == acts[..n] + [acts[n]];
    }
  }

  lemma Extend(capacity: nat, ss: seq<Actor>, acts: seq<Action>, a: Action)
      returns (ss': seq<Actor>, acts': seq<Action>)
    requires Run(capacity, ss, acts) && Step(capacity, ss[|acts|], a).Some?
    ensures Run(capacity, ss', acts') && Step(capacity, ss[|acts|], a) == Some(ss'[|acts'|])
  {
    ss', acts' := ss + [Step(capacity, ss[|acts|], a).value], acts + [a];
  }

  lemma WrittenUnanswered(r: Request) returns (ss: seq<Actor>, acts: seq<Action>)
    ensures Run(256, ss, acts)
    ensures ss[|acts|] == Actor([r], [], [(0, Nil)], [(Route(r), 0)], map[], [Waiting], Performed(0, Nil), false)
  {
    ss, acts := [NEW], [];
    ss, acts := Extend(256, ss, acts, Send(r));
    ss, acts := Extend(256, ss, acts, Receive);
    ss, acts := Extend(256, ss, acts, Perform(Nil, true));
  }

  /** The converse fails: around a stop a caller can be told that the writer stopped although its write
      was performed. */
  lemma StoppedCallerMayHaveWritten(r: Request)
    ensures exists ss: seq<Actor>, acts: seq<Action> ::
              Run(256, ss, acts) && ss[|acts|].requests == [r] && ss[|acts|].callers == [ToldStopped] &&
              Written(ss[|acts|], 0)
  {
    var ss, acts := WrittenUnanswered(r);
    ss, acts := Extend(256, ss, acts, Stop);
    ss, acts := Extend(256, ss, acts, SeeStopped(0));
    assert ss[|acts|].log[0].1 == 0;
  }

  // ----- exactly when a caller can be told so

  ghost predicate Good(s: Actor) {
    InOrder(s) && Answered(s) && Logged(s)
  }

  /** The write is made, or can still be made: its turn has not come and the actor has not left. */
  ghost predicate MayBeWritten(s: Actor, id: nat) {
    Written(s, id) || (id >= |s.performed| && s.worker != Gone)
  }

  /** The caller was told that the writer stopped, and its write is in the log. */
  ghost predicate Misinformed(s: Actor, id: nat) {
    id < |s.callers| && s.callers[id] == ToldStopped && Written(s, id)
  }

  /** From `s` the actor can get to a state in which the caller is misinformed. */
  ghost predicate Leads(capacity: nat, s: Actor, id: nat, ss: seq<Actor>, acts: seq<Action>) {
    Path(capacity, ss, acts) && ss[0] == s && Misinformed(ss[|acts|], id)
  }

  lemma Before(capacity: nat, s: Actor, a: Action, id: nat, ss: seq<Actor>, acts: seq<Action>)
      returns (ss': seq<Actor>, acts': seq<Action>)
    requires ss != [] && Leads(capacity, ss[0], id, ss, acts) && Step(capacity, s, a) == Some(ss[0])
    ensures Leads(capacity, s, id, ss', acts')
  {
    ss', acts' := [s] + ss, [a] + acts;
  }

  function Progress(w: Worker): nat {
    match w
    case Performed(_, _) => 2
    case Idle => 1
    case _ => 0
  }

  /** What the actor does next to get to a request: answer, receive, perform as told. */
  function NextMove(w: Worker, outcome: Outcome, wrote: bool): Action {
    match w
    case Performed(_, _) => Reply
    case Taken(_) => Perform(outcome, wrote)
    case _ => Receive
  }

  lemma MoveOn(capacity: nat, s: Actor, id: nat, outcome: Outcome, wrote: bool) returns (s': Actor)
    requires Good(s) && |s.performed| <= id < |s.callers| && s.callers[id] == Waiting && s.worker != Gone
    requires outcome == Nil ==> wrote
    ensures Step(capacity, s, NextMove(s.worker, outcome, wrote)) == Some(s') && Good(s')
    ensures s'.callers == s.callers && s'.requests == s.requests && s'.worker != Gone
    ensures if s.worker.Taken? then
              && s'.performed == s.performed + [(|s.performed|, outcome)]
              && (Written(s', |s.performed|) <==> wrote)
            else s'.performed == s.performed && Progress(s'.worker) < Progress(s.worker)
  {
    var move := NextMove(s.worker, outcome, wrote);
    s' := Step(capacity, s, move).value;
    StepKeeps(capacity, s, move, s');
    StepKeepsLog(capacity, s, move, s');
    if s.worker.Taken? && wrote { assert s'.log[|s.log|].1 == |s.performed|; }
  }

  lemma {:induction false} CanBeMisinformed(capacity: nat, s: Actor, id: nat)
      returns (ss: seq<Actor>, acts: seq<Action>)
    requires Good(s) && id < |s.callers| && s.callers[id] == Waiting && MayBeWritten(s, id)
    ensures Leads(capacity, s, id, ss, acts)
    decreases if Written(s, id) then 0 else 1, id - |s.performed|, Progress(s.worker), !s.stopped
  {
    if Written(s, id) {
      if s.stopped {
        ss, acts := [s, Step(capacity, s, SeeStopped(id)).value], [SeeStopped(id)];
      } else {
        ss, acts := CanBeMisinformed(capacity, s.(stopped := true), id);
        ss, acts := Before(capacity, s, Stop, id, ss, acts);
      }
    } else {
      var s' := MoveOn(capacity, s, id, Nil, true);
      ss, acts := CanBeMisinformed(capacity, s', id);
      ss, acts := Before(capacity, s, NextMove(s.worker, Nil, true), id, ss, acts);
    }
  }

  /** A write that can no longer be made is never found in the log. */
  lemma HopelessStep(capacity: nat, s: Actor, a: Action, s': Actor, id: nat)
    requires Good(s) && Step(capacity, s, a) == Some(s') && id < |s.requests| && !MayBeWritten(s, id)
    ensures Good(s') && id < |s'.requests| && !MayBeWritten(s', id)
  {
    StepKeeps(capacity, s, a, s');
    StepKeepsLog(capacity, s, a, s');
    assert s'.requests[id] == s.requests[id];
  }

  lemma {:induction false} HopelessStays(capacity: nat, ss: seq<Actor>, acts: seq<Action>, id: nat)
    requires Path(capacity, ss, acts) && Good(ss[0]) && id < |ss[0].requests| && !MayBeWritten(ss[0], id)
    ensures Good(ss[|acts|]) && id < |ss[|acts|].requests| && !MayBeWritten(ss[|acts|], id)
  {
    if acts != [] {
      var n := |acts| - 1;
      HopelessStays(capacity, ss[..n + 1], acts[..n], id);
      HopelessStep(capacity, ss[n], acts[n], ss[n + 1], id);
    }
  }

  /** In every reachable state, a waiting caller may yet be told that the writer stopped while its write is in the
      log exactly when the write is there already, or its turn has not come and the actor has not left. */
  lemma MisinformedIff(capacity: nat, ss: seq<Actor>, acts: seq<Action>, id: nat)
    requires Run(capacity, ss, acts) && id < |ss[|acts|].callers| && ss[|acts|].callers[id] == Waiting
    ensures (exists ss', acts' :: Leads(capacity, ss[|acts|], id, ss', acts')) <==> MayBeWritten(ss[|acts|], id)
  {
    var s := ss[|acts|];
    RunKeeps(capacity, ss, acts);
    if MayBeWritten(s, id) {
      var ss', acts' := CanBeMisinformed(capacity, s, id);
    } else if ss', acts' :| Leads(capacity, s, id, ss', acts') {
      HopelessStays(capacity, ss', acts', id);
    }
  }

  // ----- what a waiting caller can be told

  /** The caller has been given this outcome, and its write is in the log or not as said. */
  ghost predicate Answer(s: Actor, id: nat, outcome: Outcome, wrote: bool) {
    id < |s.callers| && s.callers[id] == Returned(outcome) && (Written(s, id) <==> wrote)
  }

  /** The request was performed so, or its turn has not come and the actor has not left. */
  ghost predicate InProspect(s: Actor, id: nat, outcome: Outcome, wrote: bool) {
    if id < |s.performed| then s.performed[id].1 == outcome && (Written(s, id) <==> wrote)
    else s.worker != Gone && (outcome == Nil ==> wrote)
  }

  lemma Prepend(capacity: nat, s: Actor, a: Action, ss: seq<Actor>, acts: seq<Action>)
      returns (ss': seq<Actor>, acts': seq<Action>)
    requires Path(capacity, ss, acts) && Step(capacity, s, a) == Some(ss[0])
    ensures Path(capacity, ss', acts') && ss'[0] == s && ss'[|acts'|] == ss[|acts|]
  {
    ss', acts' := [s] + ss, [a] + acts;
  }

  /** Performing one request says nothing about the write of another. */
  lemma OtherWrites(capacity: nat, s: Actor, a: Action, s': Actor, id: nat)
    requires Step(capacity, s, a) == Some(s') && (a.Perform? ==> s.worker.id != id)
    ensures Written(s', id) <==> Written(s, id)
  {
    if i :| 0 <= i < |s.log| && s.log[i].1 == id { assert s'.log[i].1 == id; }
  }

  lemma OutlookStep(capacity: nat, s: Actor, a: Action, s': Actor, id: nat, outcome: Outcome, wrote: bool)
    requires Good(s) && Step(capacity, s, a) == Some(s') && id < |s.callers| && !InProspect(s, id, outcome, wrote)
    ensures Good(s') && id < |s'.callers| && !InProspect(s', id, outcome, wrote)
  {
    StepKeeps(capacity, s, a, s');
    StepKeepsLog(capacity, s, a, s');
    if id < |s.performed| { OtherWrites(capacity, s, a, s', id); }
  }

  lemma {:induction false} OutlookStays(
      capacity: nat, ss: seq<Actor>, acts: seq<Action>, id: nat, outcome: Outcome, wrote: bool)
    requires Path(capacity, ss, acts) && Good(ss[0]) && id < |ss[0].callers| && !InProspect(ss[0], id, outcome, wrote)
    ensures Good(ss[|acts|]) && id < |ss[|acts|].callers| && !InProspect(ss[|acts|], id, outcome, wrote)
  {
    if acts != [] {
      var n := |acts| - 1;
      OutlookStays(capacity, ss[..n + 1], acts[..n], id, outcome, wrote);
      OutlookStep(capacity, ss[n], acts[n], ss[n + 1], id, outcome, wrote);
    }
  }

  ghost predicate LeadsToAnswer(capacity: nat, s: Actor, id: nat, outcome: Outcome, wrote: bool, ss: seq<Actor>,
                                acts: seq<Action>) {
    Path(capacity, ss, acts) && ss[0] == s && Answer(ss[|acts|], id, outcome, wrote)
  }

  /** Answer it if it is performed; get on with the queue otherwise. */
  lemma {:induction false} CanBeAnswered(capacity: nat, s: Actor, id: nat, outcome: Outcome, wrote: bool)
      returns (ss: seq<Actor>, acts: seq<Action>)
    requires Good(s) && id < |s.callers| && s.callers[id] == Waiting && InProspect(s, id, outcome, wrote)
    ensures LeadsToAnswer(capacity, s, id, outcome, wrote, ss, acts)
    decreases if id < |s.performed| then 0 else id + 1 - |s.performed|, id !in s.replies, Progress(s.worker)
  {
    var a: Action;
    if id in s.replies {
      a := GetReply(id);
      ss, acts := [s, Step(capacity, s, a).value], [a];
    } else {
      var s': Actor;
      if id < |s.performed| {
        a := Reply;
        s' := Step(capacity, s, a).value;
        StepKeeps(capacity, s, a, s');
        StepKeepsLog(capacity, s, a, s');
      } else {
        a := NextMove(s.worker, outcome, wrote);
        s' := MoveOn(capacity, s, id, outcome, wrote);
      }
      ss, acts := CanBeAnswered(capacity, s', id, outcome, wrote);
      ss, acts := Prepend(capacity, s, a, ss, acts);
    }
  }

  /** In every reachable state, a waiting caller may yet be given an outcome, with its write in the log or not,
      exactly when its request was performed so, or its turn has not come and the actor has not left; then any
      outcome is possible, but success without a write is not. */
  lemma AnswersIff(capacity: nat, ss: seq<Actor>, acts: seq<Action>, id: nat, outcome: Outcome, wrote: bool)
    requires Run(capacity, ss, acts) && id < |ss[|acts|].callers| && ss[|acts|].callers[id] == Waiting
    ensures (exists ss', acts' :: LeadsToAnswer(capacity, ss[|acts|], id, outcome, wrote, ss', acts')) <==>
              InProspect(ss[|acts|], id, outcome, wrote)
  {
    var s := ss[|acts|];
    RunKeeps(capacity, ss, acts);
    if InProspect(s, id, outcome, wrote) {
      var ss', acts' := CanBeAnswered(capacity, s, id, outcome, wrote);
    } else if ss', acts' :| LeadsToAnswer(capacity, s, id, outcome, wrote, ss', acts') {
      OutlookStays(capacity, ss', acts', id, outcome, wrote);
    }
  }

  // The actor has left, and `buffer` was never performed.
  ghost predicate LeadsOut(capacity: nat, s: Actor, buffer: seq<nat>, ss: seq<Actor>, acts: seq<Action>) {
    && Path(capacity, ss, acts) && ss[0] == s
    && ss[|acts|].worker == Gone && ss[|acts|].buffer == buffer
    && forall i :: 0 <= i < |buffer| ==> buffer[i] >= |ss[|acts|].performed|
  }

  lemma {:induction false} CanLeave(capacity: nat, s: Actor) returns (ss: seq<Actor>, acts: seq<Action>)
    requires Good(s) && s.stopped && s.worker != Gone
    ensures LeadsOut(capacity, s, s.buffer, ss, acts)
    decreases s.worker.Taken?, s.worker.Performed?
  {
    if s.worker == Idle {
      ss, acts := [s, Step(capacity, s, Leave).value], [Leave];
    } else {
      var a := NextMove(s.worker, Nil, true);
      var s' := Step(capacity, s, a).value;
      StepKeeps(capacity, s, a, s');
      StepKeepsLog(capacity, s, a, s');
      ss, acts := CanLeave(capacity, s');
      ss, acts := Prepend(capacity, s, a, ss, acts);
    }
  }

  /** From any reachable state after the stop the actor can leave as soon as it has answered what it holds, and
      what is still buffered is then never performed. */
  lemma StoppedActorCanLeave(capacity: nat, ss: seq<Actor>, acts: seq<Action>)
    requires Run(capacity, ss, acts) && ss[|acts|].stopped && ss[|acts|].worker != Gone
    ensures exists ss', acts' :: LeadsOut(capacity, ss[|acts|], ss[|acts|].buffer, ss', acts')
  {
    RunKeeps(capacity, ss, acts);
    var ss', acts' := CanLeave(capacity, ss[|acts|]);
  }
}
