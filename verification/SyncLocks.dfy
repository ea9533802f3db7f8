/** The time-bounded sync lock of both backends. Times are nanoseconds; every clock value is an input. */
module SyncLocks {
  import opened Options
  import opened Clocks

  datatype Backend = Bbolt | Mongo

  datatype Lock = Lock(holder: string, expires: int)

  /** The time as the backend stores it. */
  function Stored(backend: Backend, time: int): int {
    match backend
    case Bbolt => time
    case Mongo => BsonDate(time)
  }

  /** bbolt refuses while another holder's lease runs; Mongo's filter wants it strictly in the past. */
  predicate Grants(backend: Backend, lock: Option<Lock>, holder: string, now: int) {
    lock.None? || lock.value.holder == holder ||
    match backend
    case Bbolt => lock.value.expires <= now
    case Mongo => lock.value.expires < Stored(Mongo, now)
  }

  function LockKey(repoGroup: string): string {
    "lock:" + repoGroup
  }

  datatype Answer = Acquired | Refused | DuplicateKey

  class LockTable {
    const backend: Backend
    var locks: map<string, Lock>

    constructor (backend: Backend)
      ensures this.backend == backend && locks == map[]
    {
      this.backend, locks := backend, map[];
    }

    function LockOf(repoGroup: string): Option<Lock>
      reads this
    {
      if LockKey(repoGroup) in locks then Some(locks[LockKey(repoGroup)]) else None
    }

    /** On Mongo a filter that matches nothing turns into an insert, which fails on the existing `_id`. */
    method Acquire(repoGroup: string, holder: string, now: int, ttl: int) returns (answer: Answer)
      modifies this
      ensures answer == Acquired <==> Grants(backend, old(LockOf(repoGroup)), holder, now)
      ensures var key := "lock:" + repoGroup;
              && (answer == Acquired <==>
                    || key !in old(locks) || old(locks)[key].holder == holder
                    || (backend == Bbolt && old(locks)[key].expires <= now)
                    || (backend == Mongo && old(locks)[key].expires < BsonDate(now)))
              && (answer == Acquired ==>
                    && locks.Keys == old(locks).Keys + {key} && locks[key].holder == holder
                    && locks[key].expires == (if backend == Bbolt then now + ttl else BsonDate(now + ttl)))
              && forall k :: k != key && k in old(locks) ==> k in locks && locks[k] == old(locks)[k]
      ensures answer == DuplicateKey ==> backend == Mongo
      ensures LockOf(repoGroup) ==
              Step(backend, State(old(LockOf(repoGroup)), map[]), AcquireBy(holder, now, ttl, now)).lock
      ensures locks == if answer == Acquired
                       then old(locks)[LockKey(repoGroup) := Lock(holder, Stored(backend, now + ttl))] else old(locks)
    {
      var key, expiresAt := "lock:" + repoGroup, now + ttl;
      match backend
      case Bbolt =>
        if key in locks && locks[key].holder != holder && now < locks[key].expires {
          return Refused;
        }
        locks := locks[key := Lock(holder, expiresAt)];
        return Acquired;
      case Mongo =>
        var filter := key in locks && (locks[key].holder == holder || locks[key].expires < Stored(Mongo, now));
        if !filter && key in locks {
          return DuplicateKey;
        }
        locks := locks[key := Lock(holder, Stored(Mongo, expiresAt))];
        return Acquired;
    }

    method Release(repoGroup: string, holder: string)
      modifies this
      ensures LockOf(repoGroup) == Step(backend, State(old(LockOf(repoGroup)), map[]), ReleaseBy(holder, 0)).lock
      ensures locks == if old(LockOf(repoGroup)).Some? && old(LockOf(repoGroup)).value.holder == holder
                       then old(locks) - {LockKey(repoGroup)} else old(locks)
      ensures var key := "lock:" + repoGroup;
              locks == if key in old(locks) && old(locks)[key].holder == holder then old(locks) - {key} else old(locks)
    {
      var key := "lock:" + repoGroup;
      if key in locks && locks[key].holder == holder {
        locks := locks - {key};
      }
    }
  }

  /** Different groups have different locks, so holding one says nothing about the other. */
  lemma GroupsHaveOwnLocks(a: string, b: string)
    ensures LockKey(a) == LockKey(b) <==> a == b
  {
    if LockKey(a) == LockKey(b) { assert a == LockKey(a)[5..] == LockKey(b)[5..] == b; }
  }

  lemma StoredBounds(backend: Backend, time: int)
    ensures Stored(backend, time) <= time < Stored(backend, time) + 1_000_000
  {
  }

  /** Every grant Mongo makes on a stored lease, bbolt would make too. bbolt makes one more exactly when somebody
      else's lease has expired, but not before the current whole millisecond. */
  lemma MongoGrantIsBboltGrant(lock: Option<Lock>, holder: string, now: int)
    ensures Grants(Mongo, lock, holder, now) ==> Grants(Bbolt, lock, holder, now)
    ensures Grants(Bbolt, lock, holder, now) && !Grants(Mongo, lock, holder, now) <==>
              lock.Some? && lock.value.holder != holder && BsonDate(now) <= lock.value.expires <= now
  {
    StoredBounds(Mongo, now);
  }

  // ----- runs on one lock

  /** `at` is real time when the transaction runs, `now` the clock reading it was given. */
  datatype Event =
    | AcquireBy(holder: string, now: int, ttl: int, at: int)
    | ReleaseBy(holder: string, at: int)

  /** The stored lock, and for every holder the expiry of its most recent grant it has not released. */
  datatype State = State(lock: Option<Lock>, grants: map<string, int>)

  function Step(backend: Backend, s: State, e: Event): State {
    match e
    case AcquireBy(holder, now, ttl, _) =>
      if Grants(backend, s.lock, holder, now)
      then State(Some(Lock(holder, Stored(backend, now + ttl))), s.grants[holder := now + ttl])
      else s
    case ReleaseBy(holder, _) =>
      State(if s.lock.Some? && s.lock.value.holder == holder then None else s.lock, s.grants - {holder})
  }

  function Run(backend: Backend, events: seq<Event>): State {
    if events == [] then State(None, map[])
    else Step(backend, Run(backend, events[..|events| - 1]), events[|events| - 1])
  }

  /** Real time never runs backwards and no clock reading is ahead of it. */
  ghost predicate WellTimed(events: seq<Event>) {
    && (forall i, j :: 0 <= i < j < |events| ==> events[i].at <= events[j].at)
    && (forall i :: 0 <= i < |events| && events[i].AcquireBy? ==> events[i].now <= events[i].at)
  }

  /** A lease still running at `time` is the one stored in the lock. */
  ghost predicate RunningIsStored(backend: Backend, s: State, time: int) {
    forall h :: h in s.grants && time < s.grants[h] ==> s.lock == Some(Lock(h, Stored(backend, s.grants[h])))
  }

  lemma StepKeepsRunning(backend: Backend, s: State, e: Event, before: int)
    requires RunningIsStored(backend, s, before) && before <= e.at && (e.AcquireBy? ==> e.now <= e.at)
    ensures RunningIsStored(backend, Step(backend, s, e), e.at)
  {
    if e.AcquireBy? && Grants(backend, s.lock, e.holder, e.now) {
      forall h | h in s.grants && h != e.holder && e.at < s.grants[h] ensures false {
        assert s.lock == Some(Lock(h, Stored(backend, s.grants[h])));
        StoredBounds(backend, s.grants[h]);
        StoredBounds(backend, e.now);
      }
    }
  }

  lemma {:induction false} RunKeepsRunning(backend: Backend, events: seq<Event>, time: int)
    requires WellTimed(events) && forall i :: 0 <= i < |events| ==> events[i].at <= time
    ensures RunningIsStored(backend, Run(backend, events), time)
  {
    if events != [] {
      var n := |events| - 1;
      RunKeepsRunning(backend, events[..n], events[n].at);
      StepKeepsRunning(backend, Run(backend, events[..n]), events[n], events[n].at);
    }
  }

  /** In every well-timed run, on either backend, no two holders ever have a running lease at once. */
  lemma AtMostOneLease(backend: Backend, events: seq<Event>, time: int, h: string, k: string)
    requires WellTimed(events) && forall i :: 0 <= i < |events| ==> events[i].at <= time
    requires var grants := Run(backend, events).grants;
             h in grants && time < grants[h] && k in grants && time < grants[k]
    ensures h == k
  {
    RunKeepsRunning(backend, events, time);
  }

  /** Releasing a lock one does not hold changes nothing in the database. */
  lemma StrangerReleaseIsNoOp(backend: Backend, s: State, holder: string, at: int)
    requires s.lock.None? || s.lock.value.holder != holder
    ensures Step(backend, s, ReleaseBy(holder, at)).lock == s.lock
    ensures forall h :: h != holder && h in s.grants ==> h in Step(backend, s, ReleaseBy(holder, at)).grants
  {
  }

  /** No two holders have a running lease at `time`. */
  ghost predicate Exclusive(s: State, time: int) {
    forall h, k :: h in s.grants && k in s.grants && time < s.grants[h] && time < s.grants[k] ==> h == k
  }

  /** The backend takes a lease until `expires` for expired at the clock reading `now`. */
  predicate LooksExpired(backend: Backend, expires: int, now: int) {
    match backend
    case Bbolt => expires <= now
    case Mongo => BsonDate(expires) < BsonDate(now)
  }

  /** Leases that overlap after an acquisition are the new one and one it should not have been granted over. */
  lemma OverlapIsTakeover(backend: Backend, s: State, holder: string, now: int, ttl: int, at: int)
      returns (other: string)
    requires RunningIsStored(backend, s, at)
    requires !Exclusive(Step(backend, s, AcquireBy(holder, now, ttl, at)), at)
    ensures at < now + ttl && other != holder && other in s.grants && at < s.grants[other]
    ensures LooksExpired(backend, s.grants[other], now)
  {
    var s' := Step(backend, s, AcquireBy(holder, now, ttl, at));
    var h, k :| h in s'.grants && k in s'.grants && at < s'.grants[h] && at < s'.grants[k] && h != k;
    other := if h == holder then k else h;
    assert other in s.grants && s.lock == Some(Lock(other, Stored(backend, s.grants[other])));
  }

  lemma TakeoverOverlaps(backend: Backend, s: State, holder: string, now: int, ttl: int, at: int, h: string)
    requires RunningIsStored(backend, s, at) && at < now + ttl
    requires h != holder && h in s.grants && at < s.grants[h] && LooksExpired(backend, s.grants[h], now)
    ensures !Exclusive(Step(backend, s, AcquireBy(holder, now, ttl, at)), at)
  {
    var s' := Step(backend, s, AcquireBy(holder, now, ttl, at));
    assert s.lock == Some(Lock(h, Stored(backend, s.grants[h])));
    assert h in s'.grants && holder in s'.grants && at < s'.grants[h] && at < s'.grants[holder];
  }

  /** From a state in which every running lease is the stored one, an acquisition breaks exclusion exactly when its
      clock reading makes somebody else's running lease look expired and the new lease is running, too. */
  lemma TakeoverBreaksIff(backend: Backend, s: State, holder: string, now: int, ttl: int, at: int)
    requires RunningIsStored(backend, s, at)
    ensures !Exclusive(Step(backend, s, AcquireBy(holder, now, ttl, at)), at) <==>
              at < now + ttl &&
              exists h :: h != holder && h in s.grants && at < s.grants[h] && LooksExpired(backend, s.grants[h], now)
  {
    if !Exclusive(Step(backend, s, AcquireBy(holder, now, ttl, at)), at) {
      var other := OverlapIsTakeover(backend, s, holder, now, ttl, at);
    }
    if at < now + ttl {
      if h :| h != holder && h in s.grants && at < s.grants[h] && LooksExpired(backend, s.grants[h], now) {
        TakeoverOverlaps(backend, s, holder, now, ttl, at, h);
      }
    }
  }

  /** The clock assumption is needed: one reader running ahead is granted a lock that is still leased. */
  lemma FastClockBreaksExclusion(backend: Backend)
    ensures var s := Run(backend, [AcquireBy("a", 0, 10_000_000, 0), AcquireBy("b", 20_000_000, 10_000_000, 1)]);
            s.grants == map["a" := 10_000_000, "b" := 30_000_000]
  {
    var e0, e1 := AcquireBy("a", 0, 10_000_000, 0), AcquireBy("b", 20_000_000, 10_000_000, 1);
    assert [e0, e1][..1] == [e0] && [e0][..0] == [];
    var s := Run(backend, [e0]);
    assert s == Step(backend, Run(backend, []), e0);
    assert s.lock == Some(Lock("a", 10_000_000));
  }
}
