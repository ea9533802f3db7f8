/** The labeler's compiled-pattern cache: a map into a recency list with eviction, and the claim that it
    is invisible in every match result. */
module PatternCache {
  import opened Options

  const MAX_COMPILED_PATTERNS := 1000

  /** The matching engines the labeler calls: `path.Match`, `regexp.Compile` and `MatchString`. */
  datatype Engines<!R> = Engines(
    glob: (string, string) -> bool,
    compile: string -> Option<R>,
    matches: (R, string) -> bool)

  /** `strings.ContainsAny(pattern, "*?[")`. */
  predicate HasGlobChar(pattern: string) {
    exists i :: 0 <= i < |pattern| && pattern[i] in "*?["
  }

  lemma GlobCharsAre(pattern: string)
    ensures HasGlobChar(pattern) <==>
              exists i :: 0 <= i < |pattern| && (pattern[i] == '*' || pattern[i] == '?' || pattern[i] == '[')
  {
    assert "*?["[0] == '*' && "*?["[1] == '?' && "*?["[2] == '[';
  }

  predicate GlobMatches<R>(e: Engines<R>, pattern: string, file: string) {
    HasGlobChar(pattern) && e.glob(pattern, file)
  }

  /** The answer without any cache. */
  predicate Uncached<R>(e: Engines<R>, pattern: string, file: string) {
    || GlobMatches(e, pattern, file)
    || (e.compile(pattern).Some? && e.matches(e.compile(pattern).value, file))
  }

  // ----- the recency list

  function Without(keys: seq<string>, key: string): seq<string> {
    if keys == [] then []
    else if keys[0] == key then Without(keys[1..], key)
    else [keys[0]] + Without(keys[1..], key)
  }

  function Front(keys: seq<string>, n: nat): seq<string> {
    if |keys| <= n then keys else keys[..n]
  }

  /** The keys, most recent first, after `pattern` reaches the cache. */
  function Touch(keys: seq<string>, pattern: string, valid: bool, capacity: nat): seq<string> {
    if pattern in keys then [pattern] + Without(keys, pattern)
    else if !valid then keys
    else [pattern] + if |keys| >= capacity > 0 then keys[..|keys| - 1] else keys
  }

  class Element<R> {
    const pattern: string
    const re: R

    constructor (pattern: string, re: R)
      ensures this.pattern == pattern && this.re == re
    {
      this.pattern, this.re := pattern, re;
    }
  }

  ghost function Patterns<R>(order: seq<Element<R>>): (keys: seq<string>)
    ensures |keys| == |order| && forall i :: 0 <= i < |keys| ==> keys[i] == order[i].pattern
  {
    seq(|order|, i requires 0 <= i < |order| => order[i].pattern)
  }

  lemma PatternsMoved<R>(order: seq<Element<R>>, i: nat)
    requires i < |order|
    ensures Patterns([order[i]] + order[..i] + order[i + 1..])
            == [order[i].pattern] + (Patterns(order)[..i] + Patterns(order)[i + 1..])
  {
  }

  class Cache<R> {
    const engines: Engines<R>
    var table: map<string, Element<R>>
    var order: seq<Element<R>>

    /** Map and list hold the same elements, each once and under its own pattern. */
    ghost predicate Valid()
      reads this
    {
      && (forall k :: k in table ==> table[k] in order && table[k].pattern == k)
      && (forall i :: 0 <= i < |order| ==> order[i].pattern in table && table[order[i].pattern] == order[i])
      && (forall i, j :: 0 <= i < j < |order| ==> order[i] != order[j])
      && (forall i :: 0 <= i < |order| ==> engines.compile(order[i].pattern) == Some(order[i].re))
      && |order| <= MAX_COMPILED_PATTERNS
    }

    ghost function Keys(): seq<string>
      reads this
    {
      Patterns(order)
    }

    constructor (engines: Engines<R>)
      ensures this.engines == engines && Valid() && Keys() == []
    {
      this.engines, table, order := engines, map[], [];
    }

    method Reset()
      modifies this
      ensures Valid() && Keys() == []
    {
      table, order := map[], [];
    }

    method MoveToFront(e: Element<R>)
      requires Valid() && e in order
      modifies this`order
      ensures Valid() && Keys() == [e.pattern] + Without(old(Keys()), e.pattern)
      ensures order[0] == e
    {
      ghost var keys := Keys();
      var i := Find(e);
      MoveKeepsElements(order, i);
      PatternsMoved(order, i);
      assert forall j, k :: 0 <= j < k < |keys| ==> keys[j] != keys[k];
      WithoutAt(keys, i);
      order := [order[i]] + order[..i] + order[i + 1..];
      assert forall j :: 0 <= j < |order| ==> order[j] in old(order);
    }

    method Find(e: Element<R>) returns (i: nat)
      requires e in order
      ensures i < |order| && order[i] == e
    {
      i := 0;
      while order[i] != e
        invariant i < |order| && e !in order[..i]
        decreases |order| - i
      {
        i := i + 1;
      }
    }

    method EvictOldest()
      requires Valid() && |order| > 0
      modifies this
      ensures Valid() && Keys() == old(Keys())[..|old(Keys())| - 1]
    {
      var oldest := order[|order| - 1];
      order := order[..|order| - 1];
      table := map k | k in table && k != oldest.pattern :: table[k];
    }

    method PushFront(pattern: string, re: R)
      requires Valid() && |order| < MAX_COMPILED_PATTERNS && pattern !in Keys()
      requires engines.compile(pattern) == Some(re)
      modifies this
      ensures Valid() && Keys() == [pattern] + old(Keys())
    {
      ghost var keys := Keys();
      assert forall i :: 0 <= i < |order| ==> order[i].pattern == keys[i] != pattern;
      var elem := new Element(pattern, re);
      order := [elem] + order;
      table := table[pattern := elem];
      assert Keys() == [pattern] + keys;
    }

    method Matches(pattern: string, file: string) returns (matched: bool)
      requires Valid()
      modifies this
      ensures Valid()
      ensures matched <==>
                || ((exists i :: 0 <= i < |pattern| && (pattern[i] == '*' || pattern[i] == '?' || pattern[i] == '['))
                    && engines.glob(pattern, file))
                || (engines.compile(pattern).Some? && engines.matches(engines.compile(pattern).value, file))
      ensures Keys() == if GlobMatches(engines, pattern, file) then old(Keys())
                        else Touch(old(Keys()), pattern, engines.compile(pattern).Some?, MAX_COMPILED_PATTERNS)
    {
      GlobCharsAre(pattern);
      if HasGlobChar(pattern) {
        if engines.glob(pattern, file) {
          return true;
        }
      }
      ghost var keys := Keys();
      if pattern in table {
        var elem := table[pattern];
        assert pattern in keys by {
          var i :| 0 <= i < |order| && order[i] == elem;
          assert keys[i] == pattern;
        }
        MoveToFront(elem);
        return engines.matches(elem.re, file);
      }
      assert pattern !in keys;
      var re := engines.compile(pattern);
      if re == None {
        return false;
      }
      if |order| >= MAX_COMPILED_PATTERNS {
        EvictOldest();
      }
      PushFront(pattern, re.value);
      return engines.matches(re.value, file);
    }
  }

  lemma MoveKeepsElements<T>(s: seq<T>, i: nat)
    requires i < |s|
    ensures var moved := [s[i]] + s[..i] + s[i + 1..];
            && |moved| == |s| && (forall x :: x in moved <==> x in s)
            && ((forall j, k :: 0 <= j < k < |s| ==> s[j] != s[k]) ==>
                  forall j, k :: 0 <= j < k < |moved| ==> moved[j] != moved[k])
  {
    var moved := [s[i]] + s[..i] + s[i + 1..];
    forall j | 0 <= j < |s| ensures moved[j] == if j == 0 then s[i] else if j <= i then s[j - 1] else s[j] {}
    forall x | x in s ensures x in moved {
      var j :| 0 <= j < |s| && s[j] == x;
      assert moved[if j == i then 0 else if j < i then j + 1 else j] == x;
    }
  }

  lemma {:induction false} WithoutAt(keys: seq<string>, i: nat)
    requires i < |keys| && forall j, k :: 0 <= j < k < |keys| ==> keys[j] != keys[k]
    ensures Without(keys, keys[i]) == keys[..i] + keys[i + 1..]
  {
    if i == 0 {
      AbsentWithout(keys[1..], keys[0]);
    } else {
      WithoutAt(keys[1..], i - 1);
      assert keys[..i] + keys[i + 1..] == [keys[0]] + (keys[1..][..i - 1] + keys[1..][i..]);
    }
  }

  lemma {:induction false} AbsentWithout(keys: seq<string>, key: string)
    requires key !in keys
    ensures Without(keys, key) == keys
  {
    if keys != [] { AbsentWithout(keys[1..], key); }
  }

  // ----- what the cache holds after any sequence of accesses

  /** The distinct patterns of a history, most recent access first. */
  function Recent(history: seq<string>): seq<string> {
    if history == [] then []
    else
      var last := history[|history| - 1];
      [last] + Without(Recent(history[..|history| - 1]), last)
  }

  function Valids<R>(e: Engines<R>, history: seq<string>): seq<string> {
    if history == [] then []
    else
      var front, last := Valids(e, history[..|history| - 1]), history[|history| - 1];
      if e.compile(last).Some? then front + [last] else front
  }

  function TouchAll<R>(e: Engines<R>, history: seq<string>, capacity: nat): seq<string> {
    if history == [] then []
    else
      var last := history[|history| - 1];
      Touch(TouchAll(e, history[..|history| - 1], capacity), last, e.compile(last).Some?, capacity)
  }

  lemma {:induction false} WithoutMembers(keys: seq<string>, key: string)
    ensures forall k :: k in Without(keys, key) <==> k in keys && k != key
    ensures |Without(keys, key)| <= |keys|
    ensures (forall i, j :: 0 <= i < j < |keys| ==> keys[i] != keys[j]) ==>
              forall i, j :: 0 <= i < j < |Without(keys, key)| ==> Without(keys, key)[i] != Without(keys, key)[j]
  {
    if keys != [] {
      WithoutMembers(keys[1..], key);
      var rest := Without(keys[1..], key);
      if forall i, j :: 0 <= i < j < |keys| ==> keys[i] != keys[j] {
        forall i | 0 <= i < |rest| ensures rest[i] != keys[0] {
          assert rest[i] in rest && rest[i] in keys[1..];
        }
      }
    }
  }

  lemma {:induction false} RecentMembers(history: seq<string>)
    ensures forall k :: k in Recent(history) <==> k in history
    ensures forall i, j :: 0 <= i < j < |Recent(history)| ==> Recent(history)[i] != Recent(history)[j]
  {
    if history != [] {
      var n := |history| - 1;
      RecentMembers(history[..n]);
      WithoutMembers(Recent(history[..n]), history[n]);
      var rest := Without(Recent(history[..n]), history[n]);
      assert forall i :: 0 <= i < |rest| ==> rest[i] in rest;
      assert history == history[..n] + [history[n]];
    }
  }

  /** Evicting the least recent key commutes with recency: one access on the truncated list is the
      truncation of one access on the full list. */
  lemma TouchTruncates(recent: seq<string>, pattern: string, capacity: nat)
    requires capacity > 0 && forall i, j :: 0 <= i < j < |recent| ==> recent[i] != recent[j]
    ensures Touch(Front(recent, capacity), pattern, true, capacity)
            == Front([pattern] + Without(recent, pattern), capacity)
  {
    if pattern in recent {
      var i :| 0 <= i < |recent| && recent[i] == pattern;
      WithoutAt(recent, i);
      if i < capacity { TouchKept(recent, i, capacity); } else { TouchForgotten(recent, i, capacity); }
    } else {
      AbsentWithout(recent, pattern);
      assert forall j :: 0 <= j < |Front(recent, capacity)| ==> Front(recent, capacity)[j] == recent[j];
    }
  }

  lemma TouchKept(recent: seq<string>, i: nat, capacity: nat)
    requires i < |recent| && i < capacity && forall j, k :: 0 <= j < k < |recent| ==> recent[j] != recent[k]
    ensures Touch(Front(recent, capacity), recent[i], true, capacity)
            == Front([recent[i]] + (recent[..i] + recent[i + 1..]), capacity)
  {
    var front := Front(recent, capacity);
    assert front[i] == recent[i];
    WithoutAt(front, i);
  }

  lemma TouchForgotten(recent: seq<string>, i: nat, capacity: nat)
    requires 0 < capacity <= i < |recent| && forall j, k :: 0 <= j < k < |recent| ==> recent[j] != recent[k]
    ensures Touch(Front(recent, capacity), recent[i], true, capacity)
            == Front([recent[i]] + (recent[..i] + recent[i + 1..]), capacity)
  {
    var front := Front(recent, capacity);
    assert forall j :: 0 <= j < |front| ==> front[j] == recent[j] != recent[i];
    assert recent[i] !in front;
  }

  /** After any accesses the cache holds exactly the most recently used distinct valid patterns, at most
      `capacity` of them, in recency order. */
  lemma {:induction false} CacheHoldsMostRecent<R>(e: Engines<R>, history: seq<string>, capacity: nat)
    requires capacity > 0
    ensures TouchAll(e, history, capacity) == Front(Recent(Valids(e, history)), capacity)
  {
    if history != [] {
      var n := |history| - 1;
      var seen, last := Valids(e, history[..n]), history[n];
      CacheHoldsMostRecent(e, history[..n], capacity);
      RecentMembers(seen);
      ValidsAreValid(e, history[..n]);
      if e.compile(last).Some? {
        TouchTruncates(Recent(seen), last, capacity);
        assert (seen + [last])[..|seen|] == seen;
      } else {
        assert last !in Front(Recent(seen), capacity);
      }
    }
  }

  lemma {:induction false} ValidsAreValid<R>(e: Engines<R>, history: seq<string>)
    ensures forall k :: k in Valids(e, history) <==> k in history && e.compile(k).Some?
  {
    if history != [] {
      var n := |history| - 1;
      ValidsAreValid(e, history[..n]);
      assert history == history[..n] + [history[n]];
    }
  }

  /** The patterns of the accesses that get past the glob and so reach the cache. */
  function Reached<R>(e: Engines<R>, accesses: seq<(string, string)>): seq<string> {
    if accesses == [] then []
    else
      var front, last := Reached(e, accesses[..|accesses| - 1]), accesses[|accesses| - 1];
      if GlobMatches(e, last.0, last.1) then front else front + [last.0]
  }

  lemma NextAccess<R>(e: Engines<R>, accesses: seq<(string, string)>, i: nat, capacity: nat)
    requires i < |accesses|
    ensures var before := TouchAll(e, Reached(e, accesses[..i]), capacity);
            var (pattern, file) := accesses[i];
            TouchAll(e, Reached(e, accesses[..i + 1]), capacity) ==
            if GlobMatches(e, pattern, file) then before
            else Touch(before, pattern, e.compile(pattern).Some?, capacity)
  {
    var reached := Reached(e, accesses[..i]);
    assert accesses[..i + 1][..i] == accesses[..i];
    assert (reached + [accesses[i].0])[..|reached|] == reached;
  }

  /** The access looks `pattern` up in the cache, or adds it: its glob does not match, and it compiles. */
  ghost predicate UsedAt<R>(e: Engines<R>, accesses: seq<(string, string)>, t: int, pattern: string) {
    && 0 <= t < |accesses| && accesses[t].0 == pattern && e.compile(pattern).Some?
    && !((exists i :: 0 <= i < |pattern| && (pattern[i] == '*' || pattern[i] == '?' || pattern[i] == '['))
         && e.glob(pattern, accesses[t].1))
  }

  ghost predicate Used<R>(e: Engines<R>, accesses: seq<(string, string)>, pattern: string) {
    exists t :: UsedAt(e, accesses, t, pattern)
  }

  /** Some use of `a` comes after every use of `b`. */
  ghost predicate MoreRecent<R>(e: Engines<R>, accesses: seq<(string, string)>, a: string, b: string) {
    exists t :: UsedAt(e, accesses, t, a) && forall u :: UsedAt(e, accesses, u, b) ==> u < t
  }

  /** `keys` are the used patterns, the most recently used first. */
  ghost predicate ByRecency<R>(e: Engines<R>, accesses: seq<(string, string)>, keys: seq<string>) {
    && (forall k :: k in keys <==> Used(e, accesses, k))
    && (forall i, j :: 0 <= i < j < |keys| ==> MoreRecent(e, accesses, keys[i], keys[j]))
  }

  lemma {:induction false} WithoutKeepsOrder(keys: seq<string>, key: string, i: int, j: int)
      returns (i': int, j': int)
    requires 0 <= i < j < |Without(keys, key)|
    ensures 0 <= i' < j' < |keys| && keys[i'] == Without(keys, key)[i] && keys[j'] == Without(keys, key)[j]
  {
    var rest := Without(keys[1..], key);
    if keys[0] == key {
      i', j' := WithoutKeepsOrder(keys[1..], key, i, j);
      i', j' := i' + 1, j' + 1;
    } else if i > 0 {
      i', j' := WithoutKeepsOrder(keys[1..], key, i - 1, j - 1);
      i', j' := i' + 1, j' + 1;
    } else {
      WithoutMembers(keys[1..], key);
      assert rest[j - 1] in rest;
      i', j' := 0, var k :| 0 <= k < |keys| - 1 && keys[1..][k] == rest[j - 1]; k + 1;
    }
  }

  lemma UsedBefore<R>(e: Engines<R>, accesses: seq<(string, string)>, t: int, pattern: string)
    requires accesses != []
    ensures UsedAt(e, accesses, t, pattern) <==>
              || UsedAt(e, accesses[..|accesses| - 1], t, pattern)
              || (t == |accesses| - 1 && UsedAt(e, accesses, t, pattern))
  {
  }

  lemma UsedByThen<R>(e: Engines<R>, accesses: seq<(string, string)>, pattern: string)
    requires accesses != []
    ensures Used(e, accesses, pattern) <==>
              Used(e, accesses[..|accesses| - 1], pattern) || UsedAt(e, accesses, |accesses| - 1, pattern)
  {
    if t :| UsedAt(e, accesses, t, pattern) { UsedBefore(e, accesses, t, pattern); }
    var front := accesses[..|accesses| - 1];
    if t :| UsedAt(e, front, t, pattern) { UsedBefore(e, accesses, t, pattern); }
  }

  lemma StaysMoreRecent<R>(e: Engines<R>, accesses: seq<(string, string)>, a: string, b: string)
    requires accesses != [] && MoreRecent(e, accesses[..|accesses| - 1], a, b)
    requires !UsedAt(e, accesses, |accesses| - 1, b)
    ensures MoreRecent(e, accesses, a, b)
  {
    var front := accesses[..|accesses| - 1];
    var t :| UsedAt(e, front, t, a) && forall u :: UsedAt(e, front, u, b) ==> u < t;
    UsedBefore(e, accesses, t, a);
    forall u | UsedAt(e, accesses, u, b) ensures u < t { UsedBefore(e, accesses, u, b); }
  }

  lemma LastIsMostRecent<R>(e: Engines<R>, accesses: seq<(string, string)>, a: string, b: string)
    requires UsedAt(e, accesses, |accesses| - 1, a) && a != b
    ensures MoreRecent(e, accesses, a, b)
  {
  }

  lemma UsePutsFirst<R>(e: Engines<R>, accesses: seq<(string, string)>, keys: seq<string>, now: seq<string>)
    requires accesses != [] && ByRecency(e, accesses[..|accesses| - 1], keys)
    requires now != [] && UsedAt(e, accesses, |accesses| - 1, now[0]) && now == [now[0]] + Without(keys, now[0])
    ensures forall k :: k in now <==> Used(e, accesses, k)
  {
    WithoutMembers(keys, now[0]);
    forall k ensures k in now <==> Used(e, accesses, k) {
      UsedByThen(e, accesses, k);
      assert k in now <==> k == now[0] || k in Without(keys, now[0]);
    }
  }

  lemma UseKeepsOrder<R>(
      e: Engines<R>, accesses: seq<(string, string)>, keys: seq<string>, last: string, i: int, j: int)
    requires accesses != [] && ByRecency(e, accesses[..|accesses| - 1], keys)
    requires UsedAt(e, accesses, |accesses| - 1, last) && 0 <= i < j < |Without(keys, last)|
    ensures MoreRecent(e, accesses, Without(keys, last)[i], Without(keys, last)[j])
  {
    var others := Without(keys, last);
    WithoutMembers(keys, last);
    assert others[j] in others;
    var i', j' := WithoutKeepsOrder(keys, last, i, j);
    StaysMoreRecent(e, accesses, keys[i'], keys[j']);
  }

  /** One more use puts its pattern in front and keeps the order of the others. */
  lemma UseMovesUp<R>(e: Engines<R>, accesses: seq<(string, string)>, keys: seq<string>, now: seq<string>)
    requires accesses != [] && ByRecency(e, accesses[..|accesses| - 1], keys)
    requires now != [] && UsedAt(e, accesses, |accesses| - 1, now[0]) && now == [now[0]] + Without(keys, now[0])
    ensures ByRecency(e, accesses, now)
  {
    UsePutsFirst(e, accesses, keys, now);
    WithoutMembers(keys, now[0]);
    forall i, j | 0 <= i < j < |now| ensures MoreRecent(e, accesses, now[i], now[j]) {
      assert now[j] == Without(keys, now[0])[j - 1] && now[j] in Without(keys, now[0]);
      if i == 0 {
        LastIsMostRecent(e, accesses, now[0], now[j]);
      } else {
        UseKeepsOrder(e, accesses, keys, now[0], i - 1, j - 1);
      }
    }
  }

  lemma UnusedChangesNothing<R>(e: Engines<R>, accesses: seq<(string, string)>, keys: seq<string>)
    requires accesses != [] && ByRecency(e, accesses[..|accesses| - 1], keys)
    requires !UsedAt(e, accesses, |accesses| - 1, accesses[|accesses| - 1].0)
    ensures ByRecency(e, accesses, keys)
  {
    forall k ensures k in keys <==> Used(e, accesses, k) { UsedByThen(e, accesses, k); }
    forall i, j | 0 <= i < j < |keys| ensures MoreRecent(e, accesses, keys[i], keys[j]) {
      StaysMoreRecent(e, accesses, keys[i], keys[j]);
    }
  }

  lemma RecentAfter<R>(e: Engines<R>, accesses: seq<(string, string)>, front: seq<(string, string)>, last: string)
    requires accesses != [] && front == accesses[..|accesses| - 1] && last == accesses[|accesses| - 1].0
    ensures var before := Recent(Valids(e, Reached(e, front)));
            Recent(Valids(e, Reached(e, accesses))) ==
            if UsedAt(e, accesses, |accesses| - 1, last) then [last] + Without(before, last) else before
  {
    var reached := Reached(e, front);
    GlobCharsAre(last);
    assert (reached + [last])[..|reached|] == reached;
    assert (Valids(e, reached) + [last])[..|Valids(e, reached)|] == Valids(e, reached);
  }

  lemma {:induction false} RecentIsByRecency<R>(e: Engines<R>, accesses: seq<(string, string)>)
    ensures ByRecency(e, accesses, Recent(Valids(e, Reached(e, accesses))))
  {
    if accesses != [] {
      var front, last := accesses[..|accesses| - 1], accesses[|accesses| - 1].0;
      var before, now := Recent(Valids(e, Reached(e, front))), Recent(Valids(e, Reached(e, accesses)));
      RecentIsByRecency(e, front);
      RecentAfter(e, accesses, front, last);
      if UsedAt(e, accesses, |accesses| - 1, last) {
        UseMovesUp(e, accesses, before, now);
      } else {
        UnusedChangesNothing(e, accesses, before);
      }
    }
  }

  lemma FrontHolds(keys: seq<string>, n: nat)
    ensures forall j :: 0 <= j < |keys| && keys[j] !in Front(keys, n) ==> j >= n
  {
    forall j | 0 <= j < |keys| && j < n ensures keys[j] in Front(keys, n) {
      assert Front(keys, n)[j] == keys[j];
    }
  }

  /** What a full cache forgets was used less recently than everything it holds. */
  lemma FrontIsMostRecent<R>(e: Engines<R>, accesses: seq<(string, string)>, keys: seq<string>, n: nat)
    requires ByRecency(e, accesses, keys)
    ensures forall i, j :: 0 <= i < j < |Front(keys, n)| ==>
              MoreRecent(e, accesses, Front(keys, n)[i], Front(keys, n)[j])
    ensures forall k :: k in Front(keys, n) ==> Used(e, accesses, k)
    ensures forall k :: Used(e, accesses, k) && k !in Front(keys, n) ==>
              |Front(keys, n)| == n && forall i :: 0 <= i < n ==> MoreRecent(e, accesses, Front(keys, n)[i], k)
  {
    FrontHolds(keys, n);
    forall k | k in Front(keys, n) ensures k in keys { }
    forall k | k in keys && k !in Front(keys, n)
      ensures |Front(keys, n)| == n && forall i :: 0 <= i < n ==> MoreRecent(e, accesses, Front(keys, n)[i], k)
    {
      var j :| 0 <= j < |keys| && keys[j] == k;
    }
  }

  /** One more access. */
  method Access<R>(cache: Cache<R>, accesses: seq<(string, string)>, i: nat) returns (matched: bool)
    requires cache.Valid() && i < |accesses|
    requires cache.Keys() == TouchAll(cache.engines, Reached(cache.engines, accesses[..i]), MAX_COMPILED_PATTERNS)
    modifies cache
    ensures cache.Valid() && (matched <==> Uncached(cache.engines, accesses[i].0, accesses[i].1))
    ensures cache.Keys() == TouchAll(cache.engines, Reached(cache.engines, accesses[..i + 1]), MAX_COMPILED_PATTERNS)
  {
    NextAccess(cache.engines, accesses, i, MAX_COMPILED_PATTERNS);
    matched := cache.Matches(accesses[i].0, accesses[i].1);
  }

  /** Driving the real cache with any accesses: every result is the uncached one, and the cache ends up
      with the most recently used distinct valid patterns that reached it. */
  method Replay<R>(cache: Cache<R>, accesses: seq<(string, string)>) returns (results: seq<bool>)
    requires cache.Valid() && cache.Keys() == []
    modifies cache
    ensures cache.Valid() && |results| == |accesses|
    ensures forall i :: 0 <= i < |accesses| ==>
              (results[i] <==> Uncached(cache.engines, accesses[i].0, accesses[i].1))
    ensures cache.Keys() ==
            Front(Recent(Valids(cache.engines, Reached(cache.engines, accesses))), MAX_COMPILED_PATTERNS)
    ensures var e, keys := cache.engines, cache.Keys();
            && (forall i, j :: 0 <= i < j < |keys| ==> MoreRecent(e, accesses, keys[i], keys[j]))
            && (forall k :: k in keys ==> Used(e, accesses, k))
            && (forall k :: Used(e, accesses, k) && k !in keys ==>
                  |keys| == 1000 && forall i :: 0 <= i < 1000 ==> MoreRecent(e, accesses, keys[i], k))
            && |keys| <= 1000
  {
    results := [];
    ghost var e := cache.engines;
    for i := 0 to |accesses|
      invariant cache.Valid() && |results| == i
      invariant forall j :: 0 <= j < i ==> (results[j] <==> Uncached(e, accesses[j].0, accesses[j].1))
      invariant cache.Keys() == TouchAll(e, Reached(e, accesses[..i]), MAX_COMPILED_PATTERNS)
    {
      var matched := Access(cache, accesses, i);
      results := results + [matched];
    }
    assert accesses[..|accesses|] == accesses;
    CacheHoldsMostRecent(e, Reached(e, accesses), MAX_COMPILED_PATTERNS);
    RecentIsByRecency(e, accesses);
    FrontIsMostRecent(e, accesses, Recent(Valids(e, Reached(e, accesses))), MAX_COMPILED_PATTERNS);
  }
}
