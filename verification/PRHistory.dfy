/** `findPRCommits`: the commits a rebase has to replay, oldest first. */
module PRHistory {
  import opened Commits

  /** What the walk sees before `storer.ErrStop` at `stop`. */
  function Until(order: seq<Commit>, stop: Commit): seq<Commit> {
    if order == [] || order[0] == stop then [] else [order[0]] + Until(order[1..], stop)
  }

  function Outside(cs: seq<Commit>, reached: set<Commit>): seq<Commit> {
    if cs == [] then []
    else if cs[0] in reached then Outside(cs[1..], reached)
    else [cs[0]] + Outside(cs[1..], reached)
  }

  function Reversed(cs: seq<Commit>): seq<Commit> {
    if cs == [] then [] else Reversed(cs[1..]) + [cs[0]]
  }

  function PRCommits(head: Commit, base: Commit): seq<Commit> {
    Reversed(Outside(Until(Visit(head, {}), base), Ancestors(base)))
  }

  // ----- the loops

  lemma {:induction false} ReversedAt(cs: seq<Commit>)
    ensures |Reversed(cs)| == |cs|
    ensures forall i :: 0 <= i < |cs| ==> Reversed(cs)[i] == cs[|cs| - 1 - i]
  {
    if cs != [] { ReversedAt(cs[1..]); }
  }

  lemma {:induction false} OutsideAppend(cs: seq<Commit>, c: Commit, reached: set<Commit>)
    ensures Outside(cs + [c], reached) == Outside(cs, reached) + if c in reached then [] else [c]
  {
    if cs != [] {
      assert (cs + [c])[1..] == cs[1..] + [c];
      OutsideAppend(cs[1..], c, reached);
    }
  }

  lemma {:induction false} UntilIsPrefix(order: seq<Commit>, stop: Commit, i: nat)
    requires i <= |order| && stop !in order[..i]
    requires i == |order| || order[i] == stop
    ensures Until(order, stop) == order[..i]
  {
    if i > 0 {
      assert order[..i][0] == order[0];
      assert order[1..][..i - 1] == order[..i][1..];
      UntilIsPrefix(order[1..], stop, i - 1);
    }
  }

  /** The first and the last `i` commits have changed places. */
  ghost predicate EndsSwapped(was: seq<Commit>, now: seq<Commit>, i: nat) {
    && |now| == |was|
    && (forall k :: i <= k < |was| - i ==> now[k] == was[k])
    && (forall k :: 0 <= k < |was| && !(i <= k < |was| - i) ==> now[k] == was[|was| - 1 - k])
  }

  lemma SwapOneMore(was: seq<Commit>, now: seq<Commit>, i: nat, next: seq<Commit>)
    requires EndsSwapped(was, now, i) && 2 * i < |was| - 1
    requires next == now[i := now[|was| - 1 - i]][|was| - 1 - i := now[i]]
    ensures EndsSwapped(was, next, i + 1)
  {
    var n := |was|;
    assert now[i] == was[i] && now[n - 1 - i] == was[n - 1 - i];
    forall k | 0 <= k < n && !(i + 1 <= k < n - (i + 1)) ensures next[k] == was[n - 1 - k] {
      if k != i && k != n - 1 - i { assert next[k] == now[k]; }
    }
  }

  lemma SwappedIsReversed(was: seq<Commit>, now: seq<Commit>, i: nat)
    requires EndsSwapped(was, now, i) && 2 * i >= |was| - 1
    ensures now == Reversed(was)
  {
    ReversedAt(was);
  }

  method ReverseInPlace(a: array<Commit>)
    modifies a
    ensures a[..] == Reversed(old(a[..]))
  {
    ghost var was := a[..];
    var i, j := 0, a.Length - 1;
    while i < j
      invariant 0 <= i <= j + 1 && i + j == a.Length - 1
      invariant EndsSwapped(was, a[..], i)
    {
      ghost var swapped := a[..][i := a[j]][j := a[i]];
      SwapOneMore(was, a[..], i, swapped);
      a[i], a[j] := a[j], a[i];
      assert a[..] == swapped;
      i, j := i + 1, j - 1;
    }
    SwappedIsReversed(was, a[..], i);
  }

  method FindPRCommits(head: Commit, base: Commit) returns (cs: seq<Commit>)
    ensures cs == PRCommits(head, base)
  {
    var baseHashes: set<Commit> := {};
    var walk := Visit(base, {});
    VisitIsComplete(base);
    for i := 0 to |walk|
      invariant baseHashes == Members(walk[..i])
    {
      assert walk[..i + 1] == walk[..i] + [walk[i]];
      baseHashes := baseHashes + {walk[i]};
    }
    assert walk[..|walk|] == walk;

    cs := [];
    walk := Visit(head, {});
    var i := 0;
    while i < |walk| && walk[i] != base
      invariant i <= |walk| && base !in walk[..i]
      invariant cs == Outside(walk[..i], baseHashes)
    {
      assert walk[..i + 1] == walk[..i] + [walk[i]];
      OutsideAppend(walk[..i], walk[i], baseHashes);
      if walk[i] !in baseHashes {
        cs := cs + [walk[i]];
      }
      i := i + 1;
    }
    UntilIsPrefix(walk, base, i);

    ghost var found := cs;
    var slice := new Commit[|cs|](k requires 0 <= k < |cs| => cs[k]);
    assert slice[..] == found;
    ReverseInPlace(slice);
    cs := slice[..];
  }

  // ----- what the result is

  lemma {:induction false} OutsideMembers(cs: seq<Commit>, reached: set<Commit>)
    ensures Members(Outside(cs, reached)) == Members(cs) - reached
    ensures Distinct(cs) ==> Distinct(Outside(cs, reached))
  {
    if cs != [] {
      var rest := Outside(cs[1..], reached);
      OutsideMembers(cs[1..], reached);
      assert Members(cs) == {cs[0]} + Members(cs[1..]);
      assert forall i :: 0 <= i < |rest| ==> rest[i] in Members(rest);
      assert Members([cs[0]] + rest) == {cs[0]} + Members(rest);
      if Distinct(cs) {
        assert forall i :: 0 < i < |cs| ==> cs[i] != cs[0];
        assert cs[0] !in Members(cs[1..]);
      }
    }
  }

  lemma UntilCut(order: seq<Commit>, stop: Commit) returns (i: nat)
    ensures i <= |order| && stop !in order[..i] && (i == |order| || order[i] == stop)
    ensures Until(order, stop) == order[..i]
  {
    i := 0;
    while i < |order| && order[i] != stop
      invariant i <= |order| && stop !in order[..i]
    {
      i := i + 1;
    }
    UntilIsPrefix(order, stop, i);
  }

  lemma ReversedMembers(cs: seq<Commit>)
    ensures Members(Reversed(cs)) == Members(cs)
    ensures Distinct(cs) ==> Distinct(Reversed(cs))
  {
    ReversedAt(cs);
    forall c | c in cs ensures c in Reversed(cs) {
      var i :| 0 <= i < |cs| && cs[i] == c;
      assert Reversed(cs)[|cs| - 1 - i] == c;
    }
  }

  lemma CutIsComplete(order: seq<Commit>, k: nat, base: Commit, reached: set<Commit>)
    requires Distinct(order) && base in reached
    requires k <= |order| && base !in order[..k] && (k == |order| || order[k] == base)
    ensures Members(order[..k]) - reached <= Members(order) - reached
    ensures Members(order[..k]) - reached == Members(order) - reached
            <==> forall i, j :: 0 <= i < j < |order| && order[i] == base ==> order[j] in reached
  {
    var cut := order[..k];
    assert forall l :: 0 <= l < k ==> cut[l] == order[l] && order[l] != base;
    if forall i, j :: 0 <= i < j < |order| && order[i] == base ==> order[j] in reached {
      forall c | c in Members(order) - reached ensures c in cut {
        var j :| 0 <= j < |order| && order[j] == c;
        assert j < k;
        assert cut[j] == c;
      }
    } else {
      var i, j :| 0 <= i < j < |order| && order[i] == base && order[j] !in reached;
      assert i == k;
      assert order[j] in Members(order) - reached;
      assert order[j] !in cut;
    }
  }

  /** On any history the result has no duplicates and only commits reachable from head and not from
      base. It is the whole difference exactly when the walk meets no difference commit after base. */
  lemma PRCommitsSound(head: Commit, base: Commit)
    ensures Distinct(PRCommits(head, base))
    ensures Members(PRCommits(head, base)) <= Ancestors(head) - Ancestors(base)
    ensures var order := Visit(head, {});
            Members(PRCommits(head, base)) == Ancestors(head) - Ancestors(base)
            <==> forall i, j :: 0 <= i < j < |order| && order[i] == base ==> order[j] in Ancestors(base)
  {
    var order, reached := Visit(head, {}), Ancestors(base);
    VisitIsComplete(head);
    var k := UntilCut(order, base);
    OutsideMembers(order[..k], reached);
    ReversedMembers(Outside(order[..k], reached));
    CutIsComplete(order, k, base, reached);
  }

  // ----- the same in terms of the history

  /** What the walk passes before it gets to base: at each commit of its way there, which takes the first parent
      that leads to base, that commit and all ancestors of the parents before. */
  function LeftOf(c: Commit, base: Commit): set<Commit>
    decreases c, 1
  {
    if c == base then {} else {c} + LeftOfAll(c.parents, base)
  }

  function LeftOfAll(cs: seq<Commit>, base: Commit): set<Commit>
    decreases cs, 0
  {
    if cs == [] then {}
    else if base in Ancestors(cs[0]) then LeftOf(cs[0], base)
    else Ancestors(cs[0]) + LeftOfAll(cs[1..], base)
  }

  lemma {:induction false} UntilFound(a: seq<Commit>, b: seq<Commit>, stop: Commit)
    requires stop in a
    ensures Until(a + b, stop) == Until(a, stop)
  {
    assert (a + b)[1..] == a[1..] + b;
    if a[0] != stop { UntilFound(a[1..], b, stop); }
  }

  lemma {:induction false} UntilPast(a: seq<Commit>, b: seq<Commit>, stop: Commit)
    requires stop !in a
    ensures Until(a + b, stop) == a + Until(b, stop)
  {
    if a == [] {
      assert a + b == b;
    } else {
      assert (a + b)[1..] == a[1..] + b;
      UntilPast(a[1..], b, stop);
      assert a + Until(b, stop) == [a[0]] + (a[1..] + Until(b, stop));
    }
  }

  lemma {:induction false} PassedFrom(c: Commit, base: Commit, seen: set<Commit>)
    requires Settled(Ancestors(c), seen) && base in Ancestors(c) && base !in seen
    ensures Members(Until(Visit(c, seen), base)) == LeftOf(c, base) - seen
    decreases c, 1
  {
    if c in seen { SettledHolds(c, seen); }
    if c != base {
      SettledBelow(c, seen);
      PassedFromAll(c.parents, base, seen + {c});
      var rest := VisitAll(c.parents, seen + {c});
      assert ([c] + rest)[1..] == rest;
      assert Members([c] + Until(rest, base)) == {c} + Members(Until(rest, base));
    }
  }

  lemma {:induction false} PassedFromAll(cs: seq<Commit>, base: Commit, seen: set<Commit>)
    requires Settled(AncestorsOfAll(cs), seen) && base in AncestorsOfAll(cs) && base !in seen
    ensures Members(Until(VisitAll(cs, seen), base)) == LeftOfAll(cs, base) - seen
    decreases cs, 0
  {
    SettledNext(cs, seen);
    VisitFromSettled(cs[0], seen);
    var first := Visit(cs[0], seen);
    var rest := VisitAll(cs[1..], seen + Members(first));
    assert base in first <==> base in Members(first);
    if base in Ancestors(cs[0]) {
      UntilFound(first, rest, base);
      PassedFrom(cs[0], base, seen);
    } else {
      UntilPast(first, rest, base);
      PassedFromAll(cs[1..], base, seen + Members(first));
      assert Members(first + Until(rest, base)) == Members(first) + Members(Until(rest, base));
    }
  }

  /** On any history the walk passes exactly the commits left of base. */
  lemma PassedBefore(head: Commit, base: Commit)
    requires base in Ancestors(head)
    ensures Members(Until(Visit(head, {}), base)) == LeftOf(head, base)
  {
    PassedFrom(head, base, {});
  }

  lemma NothingStops(head: Commit, base: Commit)
    requires base !in Ancestors(head)
    ensures Members(Until(Visit(head, {}), base)) == Ancestors(head)
  {
    var order := Visit(head, {});
    VisitIsComplete(head);
    assert base in order <==> base in Members(order);
    UntilPast(order, [], base);
    assert order + [] == order;
  }

  /** On any history the result is the whole difference exactly when base is no ancestor of head, so that nothing
      stops the walk, or all of the difference lies left of base. */
  lemma PRCommitsCompleteIff(head: Commit, base: Commit)
    ensures Members(PRCommits(head, base)) == Ancestors(head) - Ancestors(base)
            <==> base !in Ancestors(head) || Ancestors(head) - Ancestors(base) <= LeftOf(head, base)
  {
    var reached, walk := Ancestors(base), Until(Visit(head, {}), base);
    OutsideMembers(walk, reached);
    ReversedMembers(Outside(walk, reached));
    if base in Ancestors(head) {
      PassedBefore(head, base);
      VisitIsComplete(head);
      var k := UntilCut(Visit(head, {}), base);
      assert Members(walk) <= Members(Visit(head, {}));
    } else {
      NothingStops(head, base);
    }
  }

  lemma {:induction false} OutsideIsIdentity(cs: seq<Commit>, reached: set<Commit>)
    requires Members(cs) !! reached
    ensures Outside(cs, reached) == cs
  {
    if cs != [] {
      assert cs[0] in Members(cs) && Members(cs[1..]) <= Members(cs);
      OutsideIsIdentity(cs[1..], reached);
    }
  }

  /** On any history the plain walk of `RebaseAndPush`, which does not filter, lists what `findPRCommits` lists
      exactly when no commit left of base is one that base reaches. */
  lemma WalkIsPRCommitsIff(head: Commit, base: Commit)
    requires base in Ancestors(head)
    ensures Reversed(Until(Visit(head, {}), base)) == PRCommits(head, base)
            <==> LeftOf(head, base) !! Ancestors(base)
  {
    var reached, walk := Ancestors(base), Until(Visit(head, {}), base);
    PassedBefore(head, base);
    OutsideMembers(walk, reached);
    ReversedMembers(walk);
    ReversedMembers(Outside(walk, reached));
    if LeftOf(head, base) !! reached { OutsideIsIdentity(walk, reached); }
  }

  lemma {:induction false} AllReached(order: seq<Commit>, stop: Commit, reached: set<Commit>)
    requires forall c :: c in order ==> c in reached
    ensures Outside(Until(order, stop), reached) == []
  {
    if order != [] && order[0] != stop {
      AllReached(order[1..], stop, reached);
      assert ([order[0]] + Until(order[1..], stop))[1..] == Until(order[1..], stop);
    }
  }

  lemma {:induction false} OwnSurvives(own: seq<Commit>, rest: seq<Commit>, stop: Commit, reached: set<Commit>)
    requires stop in reached && (forall c :: c in own ==> c !in reached) && forall c :: c in rest ==> c in reached
    ensures Outside(Until(own + rest, stop), reached) == own
  {
    if own == [] {
      assert own + rest == rest;
      AllReached(rest, stop, reached);
    } else {
      assert (own + rest)[1..] == own[1..] + rest;
      OwnSurvives(own[1..], rest, stop, reached);
      assert ([own[0]] + Until(own[1..] + rest, stop))[1..] == Until(own[1..] + rest, stop);
    }
  }

  lemma ReversedLine(own: seq<Commit>)
    requires forall i :: 0 <= i < |own| - 1 ==> own[i].parents == [own[i + 1]]
    ensures var cs := Reversed(own);
            && |cs| == |own| && (forall i :: 0 < i < |cs| ==> cs[i].parents == [cs[i - 1]])
            && (cs != [] ==> cs[|cs| - 1] == own[0] && cs[0] == own[|own| - 1])
  {
    ReversedAt(own);
  }

  lemma PRCommitsOfBranch(head: Commit, base: Commit)
    requires MergeFree(head, Ancestors(base))
    ensures PRCommits(head, base) == Reversed(OwnChain(head, Ancestors(base)))
  {
    var reached := Ancestors(base);
    AncestryIsClosed(base);
    var rest := VisitOwnFirst(head, reached, {});
    OwnChainMembers(head, reached);
    assert forall c :: c in OwnChain(head, reached) ==> c in Members(OwnChain(head, reached));
    assert forall c :: c in rest ==> c in Members(rest);
    OwnSurvives(OwnChain(head, reached), rest, base, reached);
  }

  /** When the branch itself holds no merge, whatever base and the shared history hold, the result is exactly
      the difference, each commit right after its parent, starting on a commit of base and ending at head. */
  lemma LinearPRCommits(head: Commit, base: Commit, cs: seq<Commit>)
    requires MergeFree(head, Ancestors(base)) && cs == PRCommits(head, base)
    ensures Members(cs) == Ancestors(head) - Ancestors(base)
    ensures forall i :: 0 < i < |cs| ==> cs[i].parents == [cs[i - 1]]
    ensures cs == [] <==> head in Ancestors(base)
    ensures cs != [] ==> cs[|cs| - 1] == head
    ensures cs != [] ==> cs[0].parents == [] || (|cs[0].parents| == 1 && cs[0].parents[0] in Ancestors(base))
  {
    AncestryIsClosed(base);
    PRCommitsOfBranch(head, base);
    OwnChainMembers(head, Ancestors(base));
    OwnChainLinks(head, Ancestors(base));
    ReversedMembers(OwnChain(head, Ancestors(base)));
    ReversedLine(OwnChain(head, Ancestors(base)));
  }

  /** The own commits of a branch above its ancestor `base` end right on base. */
  lemma OwnEndsOnBase(head: Commit, base: Commit)
    requires MergeFree(head, Ancestors(base)) && base in Ancestors(head)
    ensures var own := OwnChain(head, Ancestors(base));
            if own == [] then head == base else own[|own| - 1].parents == [base]
  {
    var own := OwnChain(head, Ancestors(base));
    AncestryIsClosed(base);
    OwnChainMembers(head, Ancestors(base));
    OwnChainLinks(head, Ancestors(base));
    assert base in Ancestors(base) && base !in Members(own);
    AncestorsAreOrdered(if own == [] then head else own[|own| - 1].parents[0], base);
  }

  lemma VisitStartsHere(c: Commit, seen: set<Commit>)
    requires c !in seen
    ensures Visit(c, seen) != [] && Visit(c, seen)[0] == c
  {
  }

  lemma PrefixOfSum(own: seq<Commit>, rest: seq<Commit>)
    ensures (own + rest)[..|own|] == own
  {
  }

  /** Where the walk of a branch meets its own ancestor `base`: right behind the branch's own commits. */
  lemma WalkCut(head: Commit, base: Commit)
    requires MergeFree(head, Ancestors(base)) && base in Ancestors(head)
    ensures Until(Visit(head, {}), base) == OwnChain(head, Ancestors(base))
  {
    var own := OwnChain(head, Ancestors(base));
    AncestryIsClosed(base);
    var rest := VisitOwnFirst(head, Ancestors(base), {});
    OwnChainMembers(head, Ancestors(base));
    OwnEndsOnBase(head, base);
    assert base in Ancestors(base) && base !in Members(own);
    VisitStartsHere(base, {} + Members(own));
    PrefixOfSum(own, rest);
    UntilIsPrefix(own + rest, base, |own|);
  }

  /** When base is an ancestor of a branch without merges above it, the plain walk down to base lists the same
      commits, and the first of them sits directly on base. */
  lemma WalkToBase(head: Commit, base: Commit, cs: seq<Commit>)
    requires MergeFree(head, Ancestors(base)) && base in Ancestors(head)
    requires cs == Reversed(Until(Visit(head, {}), base))
    ensures cs == PRCommits(head, base)
    ensures cs != [] ==> cs[0].parents == [base]
  {
    WalkCut(head, base);
    PRCommitsOfBranch(head, base);
    OwnChainLinks(head, Ancestors(base));
    OwnEndsOnBase(head, base);
    ReversedLine(OwnChain(head, Ancestors(base)));
  }

  /** The early stop loses commits: below a merge of base with a side branch, the side branch is not
      listed although base does not reach it. */
  lemma MergeHeadLosesSideBranch()
    ensures var root := Commit([], map[], Text("root"));
            var base := Commit([root], map[], Text("base"));
            var side := Commit([root], map[], Text("side"));
            var head := Commit([base, side], map[], Text("merge"));
            side in Ancestors(head) - Ancestors(base) && PRCommits(head, base) == [head]
  {
    var root := Commit([], map[], Text("root"));
    var base := Commit([root], map[], Text("base"));
    var side := Commit([root], map[], Text("side"));
    var head := Commit([base, side], map[], Text("merge"));
    assert root.message != base.message && base.message != side.message && side.message != root.message;
    assert Ancestors(root) == {root};
    assert AncestorsOfAll([root]) == Ancestors(root) + AncestorsOfAll([]);
    assert side !in Ancestors(base);
    assert [base, side][1..] == [side];
    assert AncestorsOfAll([side]) == Ancestors(side) + AncestorsOfAll([]);
    assert side in Ancestors(head);
    var rest := VisitAll([base, side], {head});
    assert base != head;
    var first := Visit(base, {head});
    assert first[0] == base;
    assert {} + {head} == {head};
    assert Visit(head, {}) == [head] + rest;
    assert rest == first + VisitAll([base, side][1..], {head} + Members(first));
    UntilIsPrefix(Visit(head, {}), base, 1);
    if head in Ancestors(base) { AncestorRank(base, head); }
    assert Outside([head], Ancestors(base)) == [head];
  }
}
