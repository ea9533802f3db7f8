/** The bbolt session store: a primary bucket and a by-user index, written one transaction at a time.
    Its specification is Mongo's single collection with filters. */
module Sessions {
  import opened Options
  import opened Keys
  import opened Clocks

  datatype Session = Session(id: string, username: string, lastUsed: int)

  datatype Store = Store(sessions: map<string, Session>, byUser: map<string, string>)

  datatype Status = Done | NotFound

  function UserKey(username: string, id: string): string {
    username + ":" + id
  }

  // ----- Mongo: one collection, with dates in whole milliseconds

  function Dated(x: Session): Session {
    x.(lastUsed := BsonDate(x.lastUsed))
  }

  /** The same sessions as Mongo would keep them. */
  function Seen(sessions: map<string, Session>): map<string, Session> {
    map id | id in sessions :: Dated(sessions[id])
  }

  function MongoPut(coll: map<string, Session>, x: Session): map<string, Session> {
    coll[x.id := Dated(x)]
  }

  /** Sets the date field of the document, if there is one. */
  function MongoRefresh(coll: map<string, Session>, id: string, now: int): map<string, Session> {
    if id in coll then coll[id := Session(coll[id].id, coll[id].username, BsonDate(now))] else coll
  }

  function MongoDelete(coll: map<string, Session>, id: string): map<string, Session> {
    coll - {id}
  }

  function MongoListUser(coll: map<string, Session>, username: string): set<string> {
    set id | id in coll && coll[id].username == username
  }

  function MongoDeleteUser(coll: map<string, Session>, username: string): map<string, Session> {
    coll - MongoListUser(coll, username)
  }

  function MongoInactive(coll: map<string, Session>, before: int): set<string> {
    set id | id in coll && coll[id].lastUsed < BsonDate(before)
  }

  function MongoDeleteInactive(coll: map<string, Session>, before: int): (map<string, Session>, nat) {
    (coll - MongoInactive(coll, before), |MongoInactive(coll, before)|)
  }

  // ----- the two-bucket invariants

  /** Every index entry leads to a live session. */
  ghost predicate NoDangling(s: Store) {
    forall k :: k in s.byUser ==> s.byUser[k] in s.sessions
  }

  /** Every session is stored under its own id. */
  ghost predicate Keyed(sessions: map<string, Session>) {
    forall id :: id in sessions ==> sessions[id].id == id
  }

  /** Every index entry is the one its session's user and id would be filed under. */
  ghost predicate Sound(s: Store) {
    && Keyed(s.sessions)
    && (forall k :: k in s.byUser ==>
          s.byUser[k] in s.sessions && k == UserKey(s.sessions[s.byUser[k]].username, s.byUser[k]))
  }

  ghost predicate HasEntry(s: Store, id: string)
    requires id in s.sessions
  {
    var k := UserKey(s.sessions[id].username, id);
    k in s.byUser && s.byUser[k] == id
  }

  /** Every session has its index entry. */
  ghost predicate Complete(s: Store) {
    forall id :: id in s.sessions ==> HasEntry(s, id)
  }

  ghost predicate PlainNames(s: Store) {
    forall id :: id in s.sessions ==> Plain(s.sessions[id].username)
  }

  /** The keys a prefix scan for `username` follows to a live session. */
  function HitKeys(s: Store, username: string): set<string> {
    set k | k in s.byUser && username + ":" <= k && s.byUser[k] in s.sessions
  }

  /** The sessions a prefix scan for `username` leads to. */
  function Hits(s: Store, username: string): (ids: set<string>)
    ensures ids <= s.sessions.Keys
  {
    set k | k in HitKeys(s, username) :: s.byUser[k]
  }

  /** No session is reached over two keys. */
  ghost predicate UniqueHits(s: Store, username: string) {
    forall k, l :: k in HitKeys(s, username) && l in HitKeys(s, username) && s.byUser[k] == s.byUser[l] ==> k == l
  }

  function Stale(sessions: map<string, Session>, before: int): set<string> {
    set id | id in sessions && sessions[id].lastUsed < before
  }

  // ----- single transactions

  function StorePrimary(s: Store, x: Session): Store { s.(sessions := s.sessions[x.id := x]) }
  function StoreEntry(s: Store, x: Session): Store { s.(byUser := s.byUser[UserKey(x.username, x.id) := x.id]) }
  function DropEntry(s: Store, id: string): Store
    requires id in s.sessions
  {
    s.(byUser := s.byUser - {UserKey(s.sessions[id].username, id)})
  }
  function DropPrimary(s: Store, id: string): Store { s.(sessions := s.sessions - {id}) }

  function Refresh(sessions: map<string, Session>, id: string, now: int): map<string, Session> {
    if id in sessions then sessions[id := sessions[id].(lastUsed := now)] else sessions
  }

  function Put(s: Store, x: Session): Store { StoreEntry(StorePrimary(s, x), x) }
  function Delete(s: Store, id: string): Store
    requires id in s.sessions
  {
    DropPrimary(DropEntry(s, id), id)
  }

  /** The store without the sessions `ids` and without the index entries of their users. */
  function DeleteIds(s: Store, ids: set<string>): Store
    requires ids <= s.sessions.Keys
  {
    Store(s.sessions - ids, s.byUser - (set id | id in ids :: UserKey(s.sessions[id].username, id)))
  }

  /** `found` lists the session behind each key of the user's scan, in the order of the keys. */
  ghost predicate IsListing(s: Store, username: string, from: seq<string>, found: seq<Session>) {
    && |from| == |found| && Ascending(from)
    && (forall k :: k in from <==> k in HitKeys(s, username))
    && forall i :: 0 <= i < |found| ==>
         from[i] in s.byUser && s.byUser[from[i]] in s.sessions && found[i] == s.sessions[s.byUser[from[i]]]
  }

  class SessionStore {
    var sessions: map<string, Session>
    var byUser: map<string, string>
    // The store after each committed transaction, oldest first.
    ghost var committed: seq<Store>

    ghost predicate Valid()
      reads this
    {
      Keyed(sessions)
    }

    constructor ()
      ensures Valid() && Now() == Store(map[], map[]) && committed == []
    {
      sessions, byUser, committed := map[], map[], [];
    }

    ghost function Now(): Store
      reads this`sessions, this`byUser
    {
      Store(sessions, byUser)
    }

    method PutSession(x: Session)
      requires Valid()
      modifies this
      ensures Valid() && Now() == Put(old(Now()), x)
      ensures sessions == old(sessions)[x.id := x]
      ensures byUser == old(byUser)[x.username + ":" + x.id := x.id]
      ensures committed == old(committed) + [StorePrimary(old(Now()), x), Now()]
    {
      sessions := sessions[x.id := x];
      committed := committed + [Now()];
      byUser := byUser[x.username + ":" + x.id := x.id];
      committed := committed + [Now()];
    }

    method GetSession(id: string) returns (x: Option<Session>)
      ensures x == if id in sessions then Some(sessions[id]) else None
    {
      x := if id in sessions then Some(sessions[id]) else None;
    }

    /** Unlike Mongo, deleting a missing session is an error. */
    method DeleteSession(id: string) returns (status: Status)
      requires Valid()
      modifies this
      ensures Valid()
      ensures status == Done <==> id in old(sessions)
      ensures status == NotFound ==> Now() == old(Now()) && committed == old(committed)
      ensures status == Done ==> Now() == Delete(old(Now()), id)
      ensures status == Done ==> sessions == old(sessions) - {id}
      ensures status == Done ==> byUser == old(byUser) - {old(sessions)[id].username + ":" + id}
      ensures status == Done ==> committed == old(committed) + [DropEntry(old(Now()), id), Now()]
    {
      var x := GetSession(id);
      if x == None {
        return NotFound;
      }
      byUser := byUser - {x.value.username + ":" + id};
      committed := committed + [Now()];
      sessions := sessions - {id};
      committed := committed + [Now()];
      return Done;
    }

    method ListUserSessions(username: string) returns (found: seq<Session>)
      ensures exists from :: IsListing(Now(), username, from, found)
      ensures forall x :: x in found <==>
                exists k :: k in byUser && username + ":" <= k && byUser[k] in sessions && x == sessions[byUser[k]]
    {
      var ks := ScanPrefix(byUser, username + ":");
      found := [];
      ghost var from: seq<string> := [];
      for i := 0 to |ks|
        invariant |from| == |found| && Ascending(from)
        invariant forall k :: k in from <==> k in ks[..i] && k in HitKeys(Now(), username)
        invariant forall j :: 0 <= j < |found| ==>
          from[j] in byUser && byUser[from[j]] in sessions && found[j] == sessions[byUser[from[j]]]
      {
        assert ks[..i + 1] == ks[..i] + [ks[i]];
        assert forall j :: 0 <= j < |from| ==> from[j] in from;
        var x := GetSession(byUser[ks[i]]);
        if x.Some? {
          found, from := found + [x.value], from + [ks[i]];
        }
      }
      assert ks[..|ks|] == ks;
      assert IsListing(Now(), username, from, found);
      ListingHolds(Now(), username, from, found);
    }

    method ListAllSessions() returns (found: seq<Session>)
      requires Valid()
      ensures ListsAll(sessions, found)
    {
      var ks := Cursor(sessions.Keys);
      found := [];
      for i := 0 to |ks|
        invariant |found| == i && forall j :: 0 <= j < i ==> found[j] == sessions[ks[j]]
      {
        found := found + [sessions[ks[i]]];
      }
      forall id | id in sessions ensures sessions[id] in found {
        var j :| 0 <= j < |ks| && ks[j] == id;
        assert found[j] == sessions[id];
      }
      forall x | x in found ensures exists id :: id in sessions && x == sessions[id] {
        var j :| 0 <= j < |found| && found[j] == x;
        assert ks[j] in sessions;
      }
      forall i, j | 0 <= i < j < |ks| ensures ks[i] != ks[j] { LessAsymmetric(ks[i], ks[j]); }
    }

    /** Fails exactly when the scan reaches a session twice: the second time it is already gone. */
    method DeleteUserSessions(username: string) returns (status: Status)
      requires Valid()
      modifies this
      ensures Valid()
      ensures status == Done <==> UniqueHits(old(Now()), username)
      ensures status == Done ==> Now() == DeleteIds(old(Now()), Hits(old(Now()), username))
      ensures status == Done ==>
                forall id :: id in sessions <==>
                  id in old(sessions)
                  && !exists k :: k in old(byUser) && username + ":" <= k && old(byUser)[k] == id
      ensures forall id :: id in sessions ==> id in old(sessions) && sessions[id] == old(sessions)[id]
      ensures exists done :: done <= Hits(old(Now()), username) && Now() == DeleteIds(old(Now()), done)
    {
      var found := ListUserSessions(username);
      ghost var start := Now();
      ghost var from :| IsListing(start, username, from, found);
      for i := 0 to |found|
        invariant Valid() && DistinctFront(found, i) && Ids(found[..i]) <= Hits(start, username)
        invariant Now() == DeleteIds(start, Ids(found[..i]))
      {
        ListedSession(start, username, from, found, i);
        IdsNext(found, i);
        var result := DeleteSession(found[i].id);
        if result != Done {
          TwiceListed(start, username, from, found, i);
          return result;
        }
        DeleteNext(start, Ids(found[..i]), found[i].id);
      }
      assert found[..|found|] == found;
      OnceListed(start, username, from, found);
      return Done;
    }

    method DeleteInactiveSessions(before: int) returns (status: Status, count: nat)
      requires Valid()
      modifies this
      ensures Valid() && status == Done
      ensures Now() == DeleteIds(old(Now()), Stale(old(sessions), before)) && count == |Stale(old(sessions), before)|
      ensures forall id :: id in sessions <==> id in old(sessions) && old(sessions)[id].lastUsed >= before
      ensures forall id :: id in sessions ==> sessions[id] == old(sessions)[id]
      ensures forall k :: k in byUser <==>
                k in old(byUser)
                && !exists id :: id in old(sessions) && id !in sessions && k == old(sessions)[id].username + ":" + id
      ensures forall k :: k in byUser ==> byUser[k] == old(byUser)[k]
      ensures count == |old(sessions)| - |sessions|
    {
      var found := ListAllSessions();
      ghost var start := Now();
      count := 0;
      for i := 0 to |found|
        invariant Valid() && StaleIds(found[..i], before) <= start.sessions.Keys
        invariant Now() == DeleteIds(start, StaleIds(found[..i], before)) && count == |StaleIds(found[..i], before)|
      {
        StaleNext(start.sessions, found, i, before);
        if found[i].lastUsed < before {
          var result := DeleteSession(found[i].id);
          if result != Done {
            return result, count;
          }
          DeleteNext(start, StaleIds(found[..i], before), found[i].id);
          count := count + 1;
        }
      }
      assert found[..|found|] == found;
      AllStaleFound(start.sessions, found, before);
      DeletedCount(start.sessions, Stale(start.sessions, before));
      return Done, count;
    }

    method UpdateSessionActivity(id: string, now: int) returns (status: Status)
      requires Valid()
      modifies this
      ensures Valid()
      ensures status == Done <==> id in old(sessions)
      ensures byUser == old(byUser) && sessions == Refresh(old(sessions), id, now)
      ensures sessions.Keys == old(sessions).Keys
      ensures status == Done ==> sessions[id] == Session(old(sessions)[id].id, old(sessions)[id].username, now)
      ensures forall l :: l in sessions && l != id ==> sessions[l] == old(sessions)[l]
    {
      var x := GetSession(id);
      if x == None {
        return NotFound;
      }
      sessions := sessions[id := x.value.(lastUsed := now)];
      committed := committed + [Now()];
      return Done;
    }
  }

  // ----- deleting a list of sessions

  lemma ListingHolds(s: Store, username: string, from: seq<string>, found: seq<Session>)
    requires IsListing(s, username, from, found)
    ensures forall x :: x in found <==>
              exists k :: k in s.byUser && username + ":" <= k && s.byUser[k] in s.sessions
                          && x == s.sessions[s.byUser[k]]
  {
    forall x | x in found
      ensures exists k :: k in s.byUser && username + ":" <= k && s.byUser[k] in s.sessions
                          && x == s.sessions[s.byUser[k]]
    {
      var i :| 0 <= i < |found| && found[i] == x;
      assert from[i] in from;
    }
    forall k | k in s.byUser && username + ":" <= k && s.byUser[k] in s.sessions
      ensures s.sessions[s.byUser[k]] in found
    {
      assert k in from;
      var i :| 0 <= i < |from| && from[i] == k;
      assert found[i] == s.sessions[s.byUser[k]];
    }
  }

  lemma DeletedCount(sessions: map<string, Session>, ids: set<string>)
    requires ids <= sessions.Keys
    ensures |ids| == |sessions| - |sessions - ids|
  {
    assert (sessions - ids).Keys == sessions.Keys - ids;
    assert |sessions| == |sessions.Keys| && |sessions - ids| == |(sessions - ids).Keys|;
  }

  ghost function Ids(xs: seq<Session>): set<string> {
    set i | 0 <= i < |xs| :: xs[i].id
  }

  ghost predicate DistinctFront(xs: seq<Session>, n: nat)
    requires n <= |xs|
  {
    forall i, j :: 0 <= i < j < n ==> xs[i].id != xs[j].id
  }

  lemma IdsNext(xs: seq<Session>, i: nat)
    requires i < |xs|
    ensures Ids(xs[..i + 1]) == Ids(xs[..i]) + {xs[i].id}
    ensures DistinctFront(xs, i) && xs[i].id !in Ids(xs[..i]) ==> DistinctFront(xs, i + 1)
  {
    var front, next := xs[..i], xs[..i + 1];
    assert next[i] == xs[i] && forall j :: 0 <= j < i ==> next[j] == front[j] == xs[j];
    forall id | id in Ids(front) ensures id in Ids(next) {
      var j :| 0 <= j < i && front[j].id == id;
      assert next[j].id == id;
    }
    forall j | 0 <= j < i ensures xs[j].id in Ids(front) { assert front[j].id == xs[j].id; }
  }

  /** Deleting one more session. */
  lemma DeleteNext(s: Store, ids: set<string>, id: string)
    requires ids <= s.sessions.Keys && id in s.sessions && id !in ids
    ensures Delete(DeleteIds(s, ids), id) == DeleteIds(s, ids + {id})
  {
  }

  lemma ListedSession(s: Store, username: string, from: seq<string>, found: seq<Session>, i: nat)
    requires IsListing(s, username, from, found) && Keyed(s.sessions) && i < |found|
    ensures found[i].id == s.byUser[from[i]] && found[i].id in Hits(s, username)
  {
    assert from[i] in from;
  }

  lemma TwiceListed(s: Store, username: string, from: seq<string>, found: seq<Session>, i: nat)
    requires IsListing(s, username, from, found) && Keyed(s.sessions) && i < |found|
    requires found[i].id in Ids(found[..i])
    ensures !UniqueHits(s, username)
  {
    var j :| 0 <= j < i && found[..i][j].id == found[i].id;
    ListedSession(s, username, from, found, i);
    ListedSession(s, username, from, found, j);
    LessAsymmetric(from[j], from[i]);
    assert from[i] in from && from[j] in from;
  }

  lemma OnceListed(s: Store, username: string, from: seq<string>, found: seq<Session>)
    requires IsListing(s, username, from, found) && Keyed(s.sessions) && DistinctFront(found, |found|)
    ensures UniqueHits(s, username) && Ids(found) == Hits(s, username)
  {
    forall i | 0 <= i < |found| ensures found[i].id == s.byUser[from[i]] && found[i].id in Hits(s, username) {
      ListedSession(s, username, from, found, i);
    }
    forall k | k in HitKeys(s, username) ensures s.byUser[k] in Ids(found) {
      var i :| 0 <= i < |from| && from[i] == k;
      assert found[i].id == s.byUser[k];
    }
    forall k, l | k in HitKeys(s, username) && l in HitKeys(s, username) && s.byUser[k] == s.byUser[l] ensures k == l {
      var i :| 0 <= i < |from| && from[i] == k;
      var j :| 0 <= j < |from| && from[j] == l;
      assert found[i].id == found[j].id;
    }
  }

  ghost function StaleIds(xs: seq<Session>, before: int): set<string> {
    set i | 0 <= i < |xs| && xs[i].lastUsed < before :: xs[i].id
  }

  /** `found` lists each stored session once. */
  ghost predicate ListsAll(sessions: map<string, Session>, found: seq<Session>) {
    && Keyed(sessions) && DistinctFront(found, |found|)
    && forall x :: x in found <==> exists id :: id in sessions && x == sessions[id]
  }

  lemma StaleNext(sessions: map<string, Session>, found: seq<Session>, i: nat, before: int)
    requires ListsAll(sessions, found) && i < |found|
    ensures found[i].id in sessions && found[i].id !in StaleIds(found[..i], before)
    ensures StaleIds(found[..i + 1], before) ==
            StaleIds(found[..i], before) + if found[i].lastUsed < before then {found[i].id} else {}
  {
    var front, next := found[..i], found[..i + 1];
    assert found[i] in found && next[i] == found[i];
    assert forall j :: 0 <= j < i ==> next[j] == front[j] == found[j];
    forall id | id in StaleIds(front, before) ensures id in StaleIds(next, before) {
      var j :| 0 <= j < i && front[j].lastUsed < before && front[j].id == id;
      assert next[j].id == id;
    }
  }

  lemma AllStaleFound(sessions: map<string, Session>, found: seq<Session>, before: int)
    requires ListsAll(sessions, found)
    ensures StaleIds(found, before) == Stale(sessions, before)
  {
    forall id | id in Stale(sessions, before) ensures id in StaleIds(found, before) {
      assert sessions[id] in found;
      var j :| 0 <= j < |found| && found[j] == sessions[id];
      assert found[j].id == id;
    }
    forall id | id in StaleIds(found, before) ensures id in Stale(sessions, before) {
      var j :| 0 <= j < |found| && found[j].lastUsed < before && found[j].id == id;
      assert found[j] in found;
    }
  }

  /** On a sound store no session is reached twice, whatever the names. */
  lemma SoundIsUnique(s: Store, username: string)
    requires Sound(s)
    ensures UniqueHits(s, username)
  {
  }

  ghost predicate Kept(s: Store, s': Store) {
    Sound(s') && (Complete(s) && PlainNames(s) ==> Complete(s') && PlainNames(s'))
  }

  lemma OwnKeys(s: Store, id: string, id': string)
    requires PlainNames(s) && id in s.sessions && id' in s.sessions
    requires UserKey(s.sessions[id].username, id) == UserKey(s.sessions[id'].username, id')
    ensures id == id'
  {
    CompositeInjective(s.sessions[id].username, id, s.sessions[id'].username, id');
  }

  /** Deleting any sessions with their entries keeps a sound index sound and a complete one complete. */
  lemma DeleteIdsKeeps(s: Store, ids: set<string>)
    requires Sound(s) && ids <= s.sessions.Keys
    ensures Kept(s, DeleteIds(s, ids))
  {
    var s' := DeleteIds(s, ids);
    forall k | k in s'.byUser ensures s'.byUser[k] in s'.sessions {
      assert k == UserKey(s.sessions[s.byUser[k]].username, s.byUser[k]);
    }
    if Complete(s) && PlainNames(s) {
      forall id | id in s'.sessions ensures HasEntry(s', id) {
        assert HasEntry(s, id);
        var k := UserKey(s.sessions[id].username, id);
        forall id' | id' in ids ensures UserKey(s.sessions[id'].username, id') != k {
          if UserKey(s.sessions[id'].username, id') == k { OwnKeys(s, id, id'); }
        }
      }
    }
  }

  // ----- when the scan is the filter

  /** No other user's index entry starts with the prefix of `username`. */
  ghost predicate NoForeignHit(s: Store, username: string) {
    forall id :: id in s.sessions && s.sessions[id].username != username && HasEntry(s, id) ==>
      !(username + ":" <= UserKey(s.sessions[id].username, id))
  }

  /** Every session of `username` has its index entry. */
  ghost predicate OwnIndexed(s: Store, username: string) {
    forall id :: id in s.sessions && s.sessions[id].username == username ==> HasEntry(s, id)
  }

  lemma HitIff(s: Store, username: string, id: string)
    requires Sound(s) && id in s.sessions
    ensures id in Hits(s, username) <==>
              HasEntry(s, id) && username + ":" <= UserKey(s.sessions[id].username, id)
    ensures s.sessions[id].username == username ==> username + ":" <= UserKey(s.sessions[id].username, id)
  {
    var k := UserKey(s.sessions[id].username, id);
    if HasEntry(s, id) && username + ":" <= k {
      assert k in HitKeys(s, username);
    }
  }

  /** Whatever the names: the index scan for a user answers like Mongo's filter exactly when all of the user's
      sessions are indexed and no other user's entry starts with the user's prefix. */
  lemma ScanIsFilterIff(s: Store, username: string)
    requires Sound(s)
    ensures Hits(s, username) == MongoListUser(s.sessions, username)
            <==> OwnIndexed(s, username) && NoForeignHit(s, username)
  {
    forall id | id in s.sessions
      ensures id in Hits(s, username) <==>
                HasEntry(s, id) && username + ":" <= UserKey(s.sessions[id].username, id)
      ensures s.sessions[id].username == username ==> username + ":" <= UserKey(s.sessions[id].username, id)
    {
      HitIff(s, username, id);
    }
  }

  /** On a complete index the only thing that can go wrong is a key of another user with the same prefix. */
  lemma ColonLeaksIff(s: Store, username: string)
    requires Sound(s) && Complete(s)
    ensures Hits(s, username) == MongoListUser(s.sessions, username)
            <==> forall id :: id in s.sessions && s.sessions[id].username != username ==>
                   !(username + ":" <= UserKey(s.sessions[id].username, id))
  {
    ScanIsFilterIff(s, username);
  }

  /** A colon in a user name lets one user's scan reach another user's sessions. */
  lemma ColonLeaksSessions()
    ensures var s := Put(Store(map[], map[]), Session("x", "a:b", 0));
            Sound(s) && Complete(s) && Hits(s, "a") == {"x"} && MongoListUser(s.sessions, "a") == {}
  {
    var s := Put(Store(map[], map[]), Session("x", "a:b", 0));
    assert UserKey("a:b", "x") == "a:b:x" && "a" + ":" <= "a:b:x";
    HitIff(s, "a", "x");
  }

  lemma PlainNeverForeign(s: Store, username: string)
    requires PlainNames(s) && Plain(username)
    ensures NoForeignHit(s, username)
  {
    forall id | id in s.sessions && s.sessions[id].username != username
      ensures !(username + ":" <= UserKey(s.sessions[id].username, id))
    {
      OwnPrefix(username, s.sessions[id].username, id);
    }
  }

  /** With colon-free user names a complete, sound store answers and deletes like the single collection. */
  lemma ScanIsFilter(s: Store, username: string)
    requires Sound(s) && Complete(s) && PlainNames(s) && Plain(username)
    ensures Hits(s, username) == MongoListUser(s.sessions, username)
    ensures DeleteIds(s, Hits(s, username)).sessions == MongoDeleteUser(s.sessions, username)
  {
    ScanIsFilterIff(s, username);
    PlainNeverForeign(s, username);
  }

  /** Completeness of the index is exactly what it takes, for all users at once. */
  lemma ScanIsFilterIffComplete(s: Store)
    requires Sound(s) && PlainNames(s)
    ensures Complete(s) <==>
              forall username :: Plain(username) ==> Hits(s, username) == MongoListUser(s.sessions, username)
  {
    if Complete(s) {
      forall username | Plain(username) { ScanIsFilter(s, username); }
    } else {
      var id :| id in s.sessions && !HasEntry(s, id);
      HitIff(s, s.sessions[id].username, id);
      assert id in MongoListUser(s.sessions, s.sessions[id].username);
    }
  }

  // ----- when the two clocks agree

  /** The time lies before the cutoff, but not before the cutoff's whole millisecond. */
  predicate Straddles(lastUsed: int, before: int) {
    BsonDate(before) <= lastUsed < before
  }

  lemma SubsetOfSameSize(small: set<string>, large: set<string>)
    requires small <= large
    ensures |small| == |large| <==> small == large
  {
    assert large == small + (large - small);
    if small != large {
      var x :| x in large - small;
      assert |large - small| > 0;
    }
  }

  /** Mongo never deletes an inactive session that bbolt keeps, and both delete the same ones, and so report the
      same count, exactly when no session was last used within the cutoff's own millisecond before it. */
  lemma InactiveAgreesIff(sessions: map<string, Session>, before: int)
    ensures MongoInactive(Seen(sessions), before) <= Stale(sessions, before)
    ensures Stale(sessions, before) == MongoInactive(Seen(sessions), before)
            <==> forall id :: id in sessions ==> !Straddles(sessions[id].lastUsed, before)
    ensures |Stale(sessions, before)| == |MongoInactive(Seen(sessions), before)|
            <==> Stale(sessions, before) == MongoInactive(Seen(sessions), before)
  {
    BsonDateBounds(before);
    forall id | id in sessions
      ensures id in MongoInactive(Seen(sessions), before) <==> sessions[id].lastUsed < BsonDate(before)
    {
      BsonDateLess(sessions[id].lastUsed, before);
    }
    SubsetOfSameSize(MongoInactive(Seen(sessions), before), Stale(sessions, before));
  }

  /** What each operation does to Mongo's documents. */
  lemma MongoDocuments(coll: map<string, Session>, op: Op)
    ensures op.PutOp? ==>
              MongoApply(coll, op) == coll[op.x.id := Session(op.x.id, op.x.username, BsonDate(op.x.lastUsed))]
    ensures op.DeleteOp? ==> MongoApply(coll, op) == coll - {op.id}
    ensures op.RefreshOp? ==>
              MongoApply(coll, op) ==
              if op.id in coll then coll[op.id := coll[op.id].(lastUsed := BsonDate(op.now))] else coll
    ensures op.DeleteUserOp? ==>
              MongoApply(coll, op) == map id | id in coll && coll[id].username != op.username :: coll[id]
    ensures op.DeleteInactiveOp? ==>
              MongoApply(coll, op) == map id | id in coll && coll[id].lastUsed >= BsonDate(op.before) :: coll[id]
  {
  }

  /** What each operation does to bbolt's records. */
  lemma BboltRecords(s: Store, op: Op)
    ensures op.PutOp? || op.CutPut? ==> Apply(s, op).sessions == s.sessions[op.x.id := op.x]
    ensures op.DeleteOp? ==> Apply(s, op).sessions == s.sessions - {op.id}
    ensures op.CutDelete? ==> Apply(s, op).sessions == s.sessions
    ensures op.RefreshOp? ==>
              Apply(s, op).sessions ==
              if op.id in s.sessions then s.sessions[op.id := s.sessions[op.id].(lastUsed := op.now)] else s.sessions
    ensures op.DeleteUserOp? ==>
              forall id :: id in Apply(s, op).sessions <==>
                id in s.sessions && !exists k :: k in s.byUser && op.username + ":" <= k && s.byUser[k] == id
    ensures op.DeleteInactiveOp? ==>
              Apply(s, op).sessions ==
              map id | id in s.sessions && s.sessions[id].lastUsed >= op.before :: s.sessions[id]
    ensures forall id :: id in Apply(s, op).sessions && !op.PutOp? && !op.CutPut? && !op.RefreshOp? ==>
              id in s.sessions && Apply(s, op).sessions[id] == s.sessions[id]
  {
  }

  /** A refresh is what the next deletion by time goes by: the session survives exactly when the refresh was not
      before the cutoff, and all others as if nothing had happened. */
  lemma RefreshDecidesInactivity(s: Store, id: string, now: int, before: int)
    requires id in s.sessions
    ensures var after := Apply(Apply(s, RefreshOp(id, now)), DeleteInactiveOp(before));
            && (id in after.sessions <==> now >= before)
            && forall l :: l != id ==> (l in after.sessions <==> l in s.sessions && s.sessions[l].lastUsed >= before)
  {
  }

  /** The same on Mongo, in whole milliseconds. */
  lemma MongoRefreshDecides(coll: map<string, Session>, id: string, now: int, before: int)
    requires id in coll
    ensures var after := MongoApply(MongoApply(coll, RefreshOp(id, now)), DeleteInactiveOp(before));
            && (id in after <==> BsonDate(now) >= BsonDate(before))
            && forall l :: l != id ==> (l in after <==> l in coll && coll[l].lastUsed >= BsonDate(before))
  {
  }

  // ----- puts and single deletes

  lemma SameIdKeys(u: string, v: string, id: string)
    ensures UserKey(u, id) == UserKey(v, id) <==> u == v
  {
    var k := UserKey(u, id);
    if k == UserKey(v, id) {
      assert |u| == |v|;
      assert u == k[..|u|] == v;
    }
  }

  /** A put keeps the index sound exactly when it does not move an indexed id to another user. If it does, the
      entry left behind lets the former user's scan reach the session. */
  lemma PutKeepsSoundIff(s: Store, x: Session)
    requires Sound(s)
    ensures var moved := x.id in s.sessions && HasEntry(s, x.id) && s.sessions[x.id].username != x.username;
            && (Sound(Put(s, x)) <==> !moved)
            && (moved ==> x.id in Hits(Put(s, x), s.sessions[x.id].username))
  {
    if x.id in s.sessions {
      var former := s.sessions[x.id].username;
      SameIdKeys(former, x.username, x.id);
      if HasEntry(s, x.id) && former != x.username {
        var k := UserKey(former, x.id);
        assert k in Put(s, x).byUser && Put(s, x).byUser[k] == x.id;
        assert k in HitKeys(Put(s, x), former);
      }
    }
  }

  /** A put keeps the store sound and complete as long as the id stays with its user. */
  lemma PutKeepsInvariants(s: Store, x: Session)
    requires Sound(s)
    requires x.id in s.sessions ==> s.sessions[x.id].username == x.username
    ensures Sound(StorePrimary(s, x)) && Sound(Put(s, x))
    ensures Complete(s) && PlainNames(s) && Plain(x.username) ==> Complete(Put(s, x)) && PlainNames(Put(s, x))
  {
    PutKeepsSoundIff(s, x);
    if Complete(s) && PlainNames(s) && Plain(x.username) {
      var s' := Put(s, x);
      forall id | id in s'.sessions ensures HasEntry(s', id) {
        if id != x.id {
          assert HasEntry(s, id);
          if UserKey(s.sessions[id].username, id) == UserKey(x.username, x.id) {
            CompositeInjective(s.sessions[id].username, id, x.username, x.id);
          }
        }
      }
    }
  }

  /** After every single transaction of a put or delete, cut there or not, no index entry dangles. */
  lemma EveryTransactionIsSafe(s: Store, x: Session, id: string)
    requires Sound(s)
    ensures NoDangling(StorePrimary(s, x)) && NoDangling(Put(s, x))
    ensures id in s.sessions ==> NoDangling(DropEntry(s, id)) && NoDangling(Delete(s, id))
    ensures id in s.sessions ==> Sound(DropEntry(s, id)) && Sound(Delete(s, id))
  {
    if id in s.sessions {
      forall k | k in s.byUser && s.byUser[k] == id ensures k == UserKey(s.sessions[id].username, id) {}
      assert forall k :: k in Delete(s, id).byUser ==> k in s.byUser && s.byUser[k] != id;
    }
  }

  // ----- a put or a refresh racing a delete of the same session

  /** The delete's transactions from number `from` up to number `to`. */
  function DeleteFromTo(s: Store, x: Session, from: nat, to: nat): Store {
    var dropped := if from == 0 && to >= 1 then s.(byUser := s.byUser - {UserKey(x.username, x.id)}) else s;
    if from <= 1 && to >= 2 then DropPrimary(dropped, x.id) else dropped
  }

  /** A put of `x` whose first transaction runs after `first` transactions of the delete, and its second after
      `second` of them. */
  function PutAround(s: Store, x: Session, first: nat, second: nat): Store {
    var started := StorePrimary(DeleteFromTo(s, x, 0, first), x);
    var stored := StoreEntry(DeleteFromTo(started, x, first, second), x);
    DeleteFromTo(stored, x, second, 2)
  }

  /** A put and a delete of the same session leave a dangling entry exactly when the delete drops the entry before
      the put stores it, and the record after the put has stored that. */
  lemma PutRaceDanglesIff(s: Store, x: Session, first: nat, second: nat)
    requires Sound(s) && first <= second <= 2
    requires x.id in s.sessions ==> s.sessions[x.id].username == x.username
    ensures !NoDangling(PutAround(s, x, first, second)) <==> first < 2 && second >= 1
    ensures x.id in PutAround(s, x, first, second).sessions <==> first == 2
    ensures first == 2 ==> PutAround(s, x, first, second).sessions[x.id] == x
  {
    var k, after := UserKey(x.username, x.id), PutAround(s, x, first, second);
    assert forall l :: l in s.byUser && s.byUser[l] == x.id ==> l == k;
    if first < 2 && second >= 1 {
      assert k in after.byUser && after.byUser[k] == x.id && x.id !in after.sessions;
    } else {
      forall l | l in after.byUser ensures after.byUser[l] in after.sessions {
        assert l == k || (l in s.byUser && after.byUser[l] == s.byUser[l]);
      }
    }
  }

  /** A refresh that reads after `read` transactions of the delete and writes back after `write` of them; when it
      finds nothing it writes nothing. */
  function RefreshAround(s: Store, x: Session, now: int, read: nat, write: nat): Store {
    var found := DeleteFromTo(s, x, 0, read);
    var before := DeleteFromTo(s, x, 0, write);
    var written :=
      if x.id in found.sessions then StorePrimary(before, found.sessions[x.id].(lastUsed := now)) else before;
    DeleteFromTo(written, x, write, 2)
  }

  /** A refresh brings a deleted session back, and then without an index entry, exactly when it read the session
      before the delete dropped the record and wrote it back after. */
  lemma RefreshRaceRevivesIff(s: Store, x: Session, now: int, read: nat, write: nat)
    requires Sound(s) && x.id in s.sessions && s.sessions[x.id].username == x.username && read <= write <= 2
    ensures var after := RefreshAround(s, x, now, read, write);
            && (x.id in after.sessions <==> read < 2 && write == 2)
            && (x.id in after.sessions ==> after.sessions[x.id] == Session(x.id, x.username, now))
            && NoDangling(after) && (x.id in after.sessions ==> !HasEntry(after, x.id))
  {
    var k, after := UserKey(x.username, x.id), RefreshAround(s, x, now, read, write);
    assert forall l :: l in s.byUser && s.byUser[l] == x.id ==> l == k;
    forall l | l in after.byUser ensures after.byUser[l] in after.sessions {
      assert l in s.byUser && after.byUser[l] == s.byUser[l] != x.id;
    }
    assert k !in after.byUser;
  }

  // ----- runs, possibly cut between two transactions

  datatype Op =
    | PutOp(x: Session)
    | DeleteOp(id: string)
    | RefreshOp(id: string, now: int)
    | DeleteUserOp(username: string)
    | DeleteInactiveOp(before: int)
    | CutPut(x: Session)
    | CutDelete(id: string)
    | CutDeleteUser(username: string, done: set<string>, torn: Option<string>)
    | CutDeleteInactive(before: int, done: set<string>, torn: Option<string>)

  /** A bulk delete of `ids` that died after the sessions in `done`, perhaps inside one more. */
  function CutBulk(s: Store, ids: set<string>, done: set<string>, torn: Option<string>): Store
    requires ids <= s.sessions.Keys
  {
    var rest := DeleteIds(s, ids * done);
    if torn.Some? && torn.value in ids - done then DropEntry(rest, torn.value) else rest
  }

  /** One operation, or only part of it when the process dies in between. */
  function Apply(s: Store, op: Op): Store {
    match op
    case PutOp(x) => Put(s, x)
    case CutPut(x) => StorePrimary(s, x)
    case DeleteOp(id) => if id in s.sessions then Delete(s, id) else s
    case RefreshOp(id, now) => s.(sessions := Refresh(s.sessions, id, now))
    case DeleteUserOp(username) => DeleteIds(s, Hits(s, username))
    case DeleteInactiveOp(before) => DeleteIds(s, Stale(s.sessions, before))
    case CutDelete(id) => if id in s.sessions then DropEntry(s, id) else s
    case CutDeleteUser(username, done, torn) => CutBulk(s, Hits(s, username), done, torn)
    case CutDeleteInactive(before, done, torn) => CutBulk(s, Stale(s.sessions, before), done, torn)
  }

  function ApplyAll(ops: seq<Op>): Store {
    if ops == [] then Store(map[], map[]) else Apply(ApplyAll(ops[..|ops| - 1]), ops[|ops| - 1])
  }

  /** What the same operation does to Mongo's collection; there a put or delete is one step, and a bulk delete
      that dies has deleted the documents it got to. */
  function MongoApply(coll: map<string, Session>, op: Op): map<string, Session> {
    match op
    case PutOp(x) => MongoPut(coll, x)
    case CutPut(x) => MongoPut(coll, x)
    case DeleteOp(id) => MongoDelete(coll, id)
    case RefreshOp(id, now) => MongoRefresh(coll, id, now)
    case DeleteUserOp(username) => MongoDeleteUser(coll, username)
    case DeleteInactiveOp(before) => MongoDeleteInactive(coll, before).0
    case CutDelete(id) => coll
    case CutDeleteUser(username, done, _) => coll - MongoListUser(coll, username) * done
    case CutDeleteInactive(before, done, _) => coll - MongoInactive(coll, before) * done
  }

  function MongoAll(ops: seq<Op>): map<string, Session> {
    if ops == [] then map[] else MongoApply(MongoAll(ops[..|ops| - 1]), ops[|ops| - 1])
  }

  /** Ids never move between users, and user names hold no colon. */
  ghost predicate Disciplined(op: Op, owner: string -> string) {
    match op
    case PutOp(x) => x.username == owner(x.id) && Plain(x.username)
    case CutPut(x) => x.username == owner(x.id) && Plain(x.username)
    case DeleteUserOp(username) => Plain(username)
    case CutDeleteUser(username, _, _) => Plain(username)
    case _ => true
  }

  ghost predicate OwnedBy(s: Store, owner: string -> string) {
    forall id :: id in s.sessions ==> s.sessions[id].username == owner(id)
  }

  ghost predicate Whole(op: Op) {
    !op.CutPut? && !op.CutDelete? && !op.CutDeleteUser? && !op.CutDeleteInactive?
  }

  /** The store stands over its users' own, colon-free sessions. */
  ghost predicate Tidy(s: Store, owner: string -> string) {
    Sound(s) && PlainNames(s) && OwnedBy(s, owner)
  }

  lemma RefreshKeeps(s: Store, id: string, now: int, owner: string -> string)
    requires Tidy(s, owner)
    ensures Tidy(Apply(s, RefreshOp(id, now)), owner)
    ensures Complete(s) ==> Complete(Apply(s, RefreshOp(id, now)))
  {
    var s' := Apply(s, RefreshOp(id, now));
    assert s'.byUser == s.byUser && s'.sessions.Keys == s.sessions.Keys;
    assert forall l :: l in s.sessions ==> s'.sessions[l].username == s.sessions[l].username;
    if Complete(s) {
      forall l | l in s'.sessions ensures HasEntry(s', l) { assert HasEntry(s, l); }
    }
  }

  lemma BulkKeeps(s: Store, ids: set<string>, owner: string -> string)
    requires Tidy(s, owner) && ids <= s.sessions.Keys
    ensures Tidy(DeleteIds(s, ids), owner) && (Complete(s) ==> Complete(DeleteIds(s, ids)))
  {
    DeleteIdsKeeps(s, ids);
  }

  lemma CutKeeps(s: Store, id: string, owner: string -> string)
    requires Tidy(s, owner) && id in s.sessions
    ensures Tidy(DropEntry(s, id), owner)
  {
  }

  lemma CutBulkKeeps(s: Store, ids: set<string>, done: set<string>, torn: Option<string>, owner: string -> string)
    requires Tidy(s, owner) && ids <= s.sessions.Keys
    ensures Tidy(CutBulk(s, ids, done, torn), owner)
    ensures CutBulk(s, ids, done, torn).sessions == s.sessions - ids * done
  {
    BulkKeeps(s, ids * done, owner);
    if torn.Some? && torn.value in ids - done { CutKeeps(DeleteIds(s, ids * done), torn.value, owner); }
  }

  lemma PutKeepsTidy(s: Store, x: Session, owner: string -> string)
    requires Tidy(s, owner) && x.username == owner(x.id) && Plain(x.username)
    ensures Tidy(Put(s, x), owner) && Tidy(StorePrimary(s, x), owner)
    ensures Complete(s) ==> Complete(Put(s, x))
  {
    PutKeepsInvariants(s, x);
  }

  lemma ApplyKeeps(s: Store, op: Op, owner: string -> string)
    requires Tidy(s, owner) && Disciplined(op, owner)
    ensures Tidy(Apply(s, op), owner) && (Complete(s) && Whole(op) ==> Complete(Apply(s, op)))
  {
    match op {
      case PutOp(x) => PutKeepsTidy(s, x, owner);
      case CutPut(x) => PutKeepsTidy(s, x, owner);
      case DeleteOp(id) =>
        if id in s.sessions {
          BulkKeeps(s, {id}, owner);
          assert Delete(s, id) == DeleteIds(s, {id});
        }
      case RefreshOp(id, now) => RefreshKeeps(s, id, now, owner);
      case DeleteUserOp(username) => BulkKeeps(s, Hits(s, username), owner);
      case DeleteInactiveOp(before) => BulkKeeps(s, Stale(s.sessions, before), owner);
      case CutDelete(id) => if id in s.sessions { CutKeeps(s, id, owner); }
      case CutDeleteUser(username, done, torn) => CutBulkKeeps(s, Hits(s, username), done, torn, owner);
      case CutDeleteInactive(before, done, torn) => CutBulkKeeps(s, Stale(s.sessions, before), done, torn, owner);
    }
  }

  /** What a step needs for bbolt to do as Mongo does: a bulk delete by user needs the user's sessions indexed, a
      bulk delete by time no session used within the cutoff's millisecond. A bulk delete that dies needs it for
      the sessions it got to. */
  ghost predicate Agreeable(s: Store, op: Op) {
    match op
    case DeleteUserOp(username) => OwnIndexed(s, username)
    case CutDeleteUser(username, done, _) =>
      forall id :: id in done && id in s.sessions && s.sessions[id].username == username ==> HasEntry(s, id)
    case DeleteInactiveOp(before) =>
      forall id :: id in s.sessions ==> !Straddles(s.sessions[id].lastUsed, before)
    case CutDeleteInactive(before, done, _) =>
      forall id :: id in done && id in s.sessions ==> !Straddles(s.sessions[id].lastUsed, before)
    case _ => true
  }

  lemma SeenMinus(sessions: map<string, Session>, mongo: set<string>, bbolt: set<string>)
    requires mongo <= sessions.Keys && bbolt <= sessions.Keys
    ensures Seen(sessions) - mongo == Seen(sessions - bbolt) <==> mongo == bbolt
  {
    assert (Seen(sessions) - mongo).Keys == sessions.Keys - mongo;
    assert Seen(sessions - bbolt).Keys == sessions.Keys - bbolt;
    if Seen(sessions) - mongo == Seen(sessions - bbolt) {
      forall id ensures id in mongo <==> id in bbolt {
        assert id in sessions.Keys - mongo <==> id in sessions.Keys - bbolt;
      }
    }
  }

  lemma SamePart(a: set<string>, b: set<string>, part: set<string>)
    ensures a * part == b * part <==> forall id :: id in part ==> (id in a <==> id in b)
  {
    if a * part == b * part {
      forall id | id in part ensures id in a <==> id in b { assert id in a * part <==> id in b * part; }
    }
  }

  lemma UserBulkAgreesIff(s: Store, username: string, done: set<string>)
    requires Sound(s) && PlainNames(s) && Plain(username)
    ensures MongoListUser(Seen(s.sessions), username) * done == Hits(s, username) * done <==>
              forall id :: id in done && id in s.sessions && s.sessions[id].username == username ==> HasEntry(s, id)
  {
    PlainNeverForeign(s, username);
    forall id | id in s.sessions
      ensures id in Hits(s, username) <==> HasEntry(s, id) && s.sessions[id].username == username
    {
      HitIff(s, username, id);
    }
    SamePart(MongoListUser(Seen(s.sessions), username), Hits(s, username), done);
  }

  lemma TimeBulkAgreesIff(sessions: map<string, Session>, before: int, done: set<string>)
    ensures MongoInactive(Seen(sessions), before) * done == Stale(sessions, before) * done <==>
              forall id :: id in done && id in sessions ==> !Straddles(sessions[id].lastUsed, before)
  {
    BsonDateBounds(before);
    forall id | id in sessions
      ensures id in MongoInactive(Seen(sessions), before) <==> sessions[id].lastUsed < BsonDate(before)
    {
      BsonDateLess(sessions[id].lastUsed, before);
    }
    SamePart(MongoInactive(Seen(sessions), before), Stale(sessions, before), done);
  }

  /** From a tidy store, a step leaves bbolt and Mongo with the same sessions exactly when it is agreeable. */
  lemma StepAgreesIff(s: Store, op: Op, owner: string -> string)
    requires Tidy(s, owner) && Disciplined(op, owner)
    ensures MongoApply(Seen(s.sessions), op) == Seen(Apply(s, op).sessions) <==> Agreeable(s, op)
  {
    match op
    case DeleteUserOp(username) =>
      var all := s.sessions.Keys;
      UserBulkAgreesIff(s, username, all);
      assert MongoListUser(Seen(s.sessions), username) * all == MongoListUser(Seen(s.sessions), username);
      assert Hits(s, username) * all == Hits(s, username);
      SeenMinus(s.sessions, MongoListUser(Seen(s.sessions), username), Hits(s, username));
    case CutDeleteUser(username, done, torn) =>
      UserBulkAgreesIff(s, username, done);
      CutBulkKeeps(s, Hits(s, username), done, torn, owner);
      SeenMinus(s.sessions, MongoListUser(Seen(s.sessions), username) * done, Hits(s, username) * done);
    case DeleteInactiveOp(before) =>
      InactiveAgreesIff(s.sessions, before);
      SeenMinus(s.sessions, MongoInactive(Seen(s.sessions), before), Stale(s.sessions, before));
    case CutDeleteInactive(before, done, torn) =>
      TimeBulkAgreesIff(s.sessions, before, done);
      CutBulkKeeps(s, Stale(s.sessions, before), done, torn, owner);
      SeenMinus(s.sessions, MongoInactive(Seen(s.sessions), before) * done, Stale(s.sessions, before) * done);
    case _ =>
  }

  lemma TidyFromNothing(owner: string -> string)
    ensures Tidy(Store(map[], map[]), owner) && Complete(Store(map[], map[]))
  {
  }

  /** Every run, bulk deletes included and cut anywhere any number of times, leaves a sound store without
      dangling entries; it stands over exactly Mongo's collection as long as its steps are agreeable, and a run
      without cuts leaves a complete index. */
  lemma {:induction false} RunSimulatesMongo(ops: seq<Op>, owner: string -> string)
    requires forall i :: 0 <= i < |ops| ==> Disciplined(ops[i], owner)
    ensures Tidy(ApplyAll(ops), owner) && NoDangling(ApplyAll(ops))
    ensures (forall i :: 0 <= i < |ops| ==> Agreeable(ApplyAll(ops[..i]), ops[i])) ==>
              Seen(ApplyAll(ops).sessions) == MongoAll(ops)
    ensures (forall i :: 0 <= i < |ops| ==> Whole(ops[i])) ==> Complete(ApplyAll(ops))
  {
    if ops == [] {
      TidyFromNothing(owner);
    } else {
      var n := |ops| - 1;
      RunSimulatesMongo(ops[..n], owner);
      assert forall i :: 0 <= i < n ==> ops[..n][..i] == ops[..i];
      ApplyKeeps(ApplyAll(ops[..n]), ops[n], owner);
      StepAgreesIff(ApplyAll(ops[..n]), ops[n], owner);
    }
  }

  /** On a tidy and complete store: listing and deleting by user is what Mongo does, and deleting by time is, with
      its count, exactly when no session straddles the cutoff. */
  lemma CompleteIsLikeMongo(s: Store, owner: string -> string, username: string, before: int)
    requires Tidy(s, owner) && Complete(s) && Plain(username)
    ensures Hits(s, username) == MongoListUser(Seen(s.sessions), username)
    ensures Seen(DeleteIds(s, Hits(s, username)).sessions) == MongoDeleteUser(Seen(s.sessions), username)
    ensures MongoDeleteInactive(Seen(s.sessions), before)
            == (Seen(DeleteIds(s, Stale(s.sessions, before)).sessions), |Stale(s.sessions, before)|)
            <==> Agreeable(s, DeleteInactiveOp(before))
  {
    ScanIsFilter(s, username);
    StepAgreesIff(s, DeleteUserOp(username), owner);
    InactiveAgreesIff(s.sessions, before);
    StepAgreesIff(s, DeleteInactiveOp(before), owner);
  }

  lemma UncutIsAgreeable(ops: seq<Op>, owner: string -> string, i: nat)
    requires i < |ops| && forall j :: 0 <= j < |ops| ==> Disciplined(ops[j], owner) && Whole(ops[j])
    requires ops[i].DeleteInactiveOp? ==>
               BsonDate(ops[i].before) == ops[i].before || Agreeable(ApplyAll(ops[..i]), ops[i])
    ensures Agreeable(ApplyAll(ops[..i]), ops[i])
  {
    RunSimulatesMongo(ops[..i], owner);
  }

  /** In a run without cuts whose cutoffs fall on whole milliseconds, or whose sessions at least do not straddle
      them, bbolt keeps doing what Mongo does: listing and deleting by user, and, exactly under the same condition
      on its cutoff, deleting by time with the same count. */
  lemma RunListsLikeMongo(ops: seq<Op>, owner: string -> string, username: string, before: int)
    requires forall i :: 0 <= i < |ops| ==> Disciplined(ops[i], owner) && Whole(ops[i])
    requires forall i :: 0 <= i < |ops| && ops[i].DeleteInactiveOp? ==>
               BsonDate(ops[i].before) == ops[i].before || Agreeable(ApplyAll(ops[..i]), ops[i])
    requires Plain(username)
    ensures var s, coll := ApplyAll(ops), MongoAll(ops);
            && Seen(s.sessions) == coll
            && Hits(s, username) == MongoListUser(coll, username)
            && Seen(DeleteIds(s, Hits(s, username)).sessions) == MongoDeleteUser(coll, username)
            && (MongoDeleteInactive(coll, before)
                == (Seen(DeleteIds(s, Stale(s.sessions, before)).sessions), |Stale(s.sessions, before)|)
                <==> Agreeable(s, DeleteInactiveOp(before)))
  {
    forall i | 0 <= i < |ops| ensures Agreeable(ApplyAll(ops[..i]), ops[i]) {
      UncutIsAgreeable(ops, owner, i);
    }
    RunSimulatesMongo(ops, owner);
    CompleteIsLikeMongo(ApplyAll(ops), owner, username, before);
  }
}
